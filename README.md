# Cascading filters index — a Dafny model

`scripts/regenerate_cascading_filters.py` rebuilds the "cascading filters"
index of the Korean word list: for every part of speech, the topics its
words fall under, and for every part-of-speech/topic combination, how many
words it has. This project models the aggregation inside its `main()`,
without the file reading and writing around it. It has three stages:

1. **Count and group** (module `Grouping`). One pass over the words. A word
   counts only when both `partOfSpeech` and `topic` are non-empty. The pass
   collects the topics of each part of speech (`parts_of_speech`) and counts
   each combination (`topic_counts`).
2. **Build the entries** (module `Entries`). One entry per part of speech:
   - the key is the display name `"<pos.title()> - <korean name>"`;
   - the Korean name comes from the fixed table of nine tags and falls back to
     the tag itself;
   - the topic list is sorted.
3. **Reorder** (module `Reordering`). The nine standard tags come first, in
   `pos_order`. Every other entry follows in its original order.

Also modelled:

- the statistics the script reports afterwards (module `Statistics`);
- the whole pipeline, as one method (module `Regenerate`).

Support modules:

- `OrderedDicts` models a Python `dict` as a sequence of key/value pairs with
  unique keys, kept in insertion order. Assigning to a present key keeps its
  position; assigning to a new key appends it.
- `Text` models Python string order, `sorted()` of a set of strings, and
  `str.title()`.

Each loop of the aggregation (lines 38–104) is a method with a loop, in the script's own order:

| loop | method |
|---|---|
| 38–46 | `CountAndGroup` |
| 69–77 | `BuildEntries` |
| 93–97 | `TakeInOrder` (outer loop, over `pos_order`) and `FindNamed` (inner loop, with its `break`) |
| 100–102 | `AddRest` |

Each method is proved equal to a recursive function. For most loops it is a
fold over the input, one element at a time. For the inner loop it is the
first-match search `FirstNamed`. That function is in turn related, by lemmas, to an
independent definition of what the index should record:

- the number of words of a combination;
- the set of topics seen for a part of speech;
- the standard entries followed by the others.

`ReorderEntries` runs `TakeInOrder` with `pos_order` and then `AddRest`.

The report loops at lines 111–113 and 123–125 only compute the values they
print, so they are functions over sequences (`PosStatistics`,
`NumeralBreakdown`). The generator sums at lines 112 and 117 are recursive
functions (`TopicTotal`, `NumeralCount`).

The word total of one part of speech sums over a Python `set`, whose order is
unspecified. The model sums in ascending order. `TopicTotalMeaning` proves the
total is the same for every order that lists each topic once.

## Model

| member | source | states |
|---|---|---|
| OrderedDicts.Put | scripts/regenerate_cascading_filters.py:44-46 | `d[k] = v`: keys stay unique; a present key keeps its position and a new key is appended; pairs under other keys are untouched; the key now holds `v`; no other pair appears |
| OrderedDicts.Get | scripts/regenerate_cascading_filters.py:112-124 | the lookup behind `d.get(k, default)`: it finds a value exactly when `k` is a key, and then it is the pair stored under `k` |
| OrderedDicts.GetOr | scripts/regenerate_cascading_filters.py:44-124 | `d.get(k, default)` at lines 112, 116 and 124 gives the value stored under `k` when `k` is a key, and `default` otherwise; the `defaultdict` reads at lines 44 and 46 are the same with the factory's empty set or 0 as default |
| OrderedDicts.PutEachDistinct | scripts/regenerate_cascading_filters.py:69-77 | when every element maps to its own key, filling an empty dict one element at a time overwrites nothing: the i-th pair is the i-th element's pair |
| OrderedDicts.GetPut | scripts/regenerate_cascading_filters.py:44-46 | reading a key after `d[k] = v` gives `v` for `k` and the old value for every other key |
| Text.Sorted | scripts/regenerate_cascading_filters.py:74 | `sorted()` of a set of strings is strictly ascending, holds exactly the set's elements, and has one element per member |
| Text.Title | scripts/regenerate_cascading_filters.py:71 | `str.title()` keeps the length and the letters up to case; a letter becomes upper case exactly when the character before it is not a letter; other characters are unchanged |
| Grouping.PartsOfSpeech | scripts/regenerate_cascading_filters.py:36-44 | `parts_of_speech` after the loop never holds a part of speech twice |
| Grouping.TopicCounts | scripts/regenerate_cascading_filters.py:35-46 | `topic_counts` after the loop never holds a combination twice |
| Grouping.CountAndGroup | scripts/regenerate_cascading_filters.py:35-46 | the loop leaves both dicts as the fold over the words. `parts_of_speech` has a key exactly for each part of speech of a word with both fields set, holding that part of speech's topics. `topic_counts` has a key exactly for each combination that occurs, holding its number of words |
| Grouping.PartsOfSpeechMeaning | scripts/regenerate_cascading_filters.py:42-44 | a part of speech is a key iff some word with both fields non-empty has it; its value, and `.get(pos, set())`, is the set of those words' topics |
| Grouping.TopicCountsMeaning | scripts/regenerate_cascading_filters.py:42-46 | `topic_counts[(pos, topic)]` is present iff the combination occurs among the words with both fields non-empty, and equals the number of such words |
| Grouping.TopicSeenIffCounted | scripts/regenerate_cascading_filters.py:44-46 | a topic is collected under a part of speech iff that combination's count is positive |
| Grouping.OnlyTaggedMatter | scripts/regenerate_cascading_filters.py:42 | removing the words with an empty field leaves both dicts unchanged |
| Grouping.SumOfCounts | scripts/regenerate_cascading_filters.py:46 | the counts add up to the number of words with both fields non-empty |
| Grouping.PartsOfSpeechOrder | scripts/regenerate_cascading_filters.py:36-44 | the keys of `parts_of_speech` stand in the order in which their parts of speech first appear among the counted words |
| Entries.EntriesOf | scripts/regenerate_cascading_filters.py:69-77 | the `parts_of_speech` entries after the loop never hold a display name twice |
| Entries.BuildEntries | scripts/regenerate_cascading_filters.py:69-77 | the loop leaves the fold over `parts_of_speech`. When the input's keys are unique, the i-th entry is the display name of the i-th part of speech, holding its sorted topics, its English name and its Korean name |
| Entries.KoreanName | scripts/regenerate_cascading_filters.py:70 | `pos_korean_names.get(pos, pos)` is the table's name for a standard tag; it equals the tag itself exactly when the tag is not in the table |
| Entries.DisplayName | scripts/regenerate_cascading_filters.py:71 | the display name is the title-cased tag, then `" - "`, then the Korean name, with nothing else |
| Entries.MakeEntry | scripts/regenerate_cascading_filters.py:73-77 | the stored entry lists each collected topic once, in ascending order, and carries the tag as English name and its Korean name |
| Entries.KnownShape | scripts/regenerate_cascading_filters.py:56-66 | the nine tags are non-empty lower-case words, and their Korean names contain no Latin letter; the lengths of tag and name never fall in the one split that would let two display names line up |
| Entries.DisplayNameInjective | scripts/regenerate_cascading_filters.py:70-73 | different parts of speech get different display names, so no entry overwrites another |
| Entries.EntriesAligned | scripts/regenerate_cascading_filters.py:69-77 | for a dict with unique keys there is one entry per part of speech, in the same order, built from it |
| Reordering.FirstNamed | scripts/regenerate_cascading_filters.py:94-97 | the inner loop stops at the first entry whose English name is the tag, and no earlier entry has that name; it finds nothing only if no entry has that name |
| Reordering.Front | scripts/regenerate_cascading_filters.py:93-97 | `sorted_pos` after the first loop never holds a key twice |
| Reordering.AddRemaining | scripts/regenerate_cascading_filters.py:100-102 | `sorted_pos` after the second loop never holds a key twice |
| Reordering.Reorder | scripts/regenerate_cascading_filters.py:80-104 | the reordered `parts_of_speech` keeps keys unique and starts with exactly what the first loop took; `ReorderIsPermutation` and `ReorderLayout` state the rest |
| Reordering.ReorderEntries | scripts/regenerate_cascading_filters.py:80-104 | the two loops compute `Reorder`. For entries with unique keys the result is a permutation. With unique English names too, the standard entries come first, in `pos_order`, then all the others in their original order |
| Reordering.TakeInOrder | scripts/regenerate_cascading_filters.py:93-97 | the first loop, over any tag list, leaves `sorted_pos` as `Front` of that list |
| Reordering.FindNamed | scripts/regenerate_cascading_filters.py:94-97 | the inner loop stops at the index of the first entry whose English name is the tag, or runs to the end when there is none; this is `FirstNamed` |
| Reordering.AddRest | scripts/regenerate_cascading_filters.py:100-102 | the second loop, from any `sorted_pos` with unique keys, leaves `AddRemaining` of it |
| Reordering.FrontMembers | scripts/regenerate_cascading_filters.py:93-97 | the first loop only takes entries that exist, and only ones whose English name is one of the tags |
| Reordering.FoundKeyIsNew | scripts/regenerate_cascading_filters.py:94-97 | with distinct tags, the entry a turn of the first loop finds has a key that no earlier turn took |
| Reordering.FrontStep | scripts/regenerate_cascading_filters.py:94-97 | each turn of the first loop appends the entry it finds, since its key is not there yet |
| Reordering.FrontInOrder | scripts/regenerate_cascading_filters.py:93-97 | the entries the first loop takes come in the order of the tag list |
| Reordering.FrontCovers | scripts/regenerate_cascading_filters.py:93-97 | with unique English names, the first loop takes every entry whose name is one of the tags |
| Reordering.ClaimedIffNamed | scripts/regenerate_cascading_filters.py:93-101 | with unique English names, an entry's key is taken by the first loop exactly when its English name is one of the tags, so the second loop's test `key not in sorted_pos` picks exactly the non-standard entries |
| Reordering.UnclaimedMembers | scripts/regenerate_cascading_filters.py:100-101 | the second loop's candidates are exactly the entries whose key `sorted_pos` does not yet hold |
| Reordering.AddRemainingIsUnclaimed | scripts/regenerate_cascading_filters.py:100-102 | the second loop appends, in their original order, exactly the entries whose key is not there yet |
| Reordering.ReorderIsPermutation | scripts/regenerate_cascading_filters.py:93-104 | the reordered dict has unique keys and holds exactly the same key/value pairs, each once |
| Reordering.OthersMembers | scripts/regenerate_cascading_filters.py:100-102 | the entries that follow the standard ones are exactly those whose English name is not a standard tag |
| Reordering.UnclaimedAreOthers | scripts/regenerate_cascading_filters.py:101 | when "key not yet taken" and "name not a standard tag" agree on every entry, the second loop adds exactly the non-standard entries |
| Reordering.LayoutFor | scripts/regenerate_cascading_filters.py:93-102 | for any list of distinct tags, both loops give the entries named by the list, in list order, then the rest in original order |
| Reordering.ReorderLayout | scripts/regenerate_cascading_filters.py:81-102 | the same for `pos_order` itself |
| Reordering.ReorderProperties | scripts/regenerate_cascading_filters.py:80-104 | the permutation and the layout together, each under the uniqueness it needs |
| Reordering.StandardTagsDistinct | scripts/regenerate_cascading_filters.py:81-91 | `pos_order` names no tag twice |
| Statistics.TopicTotal | scripts/regenerate_cascading_filters.py:112 | the generator sum is at least each looked-up count it adds, and is 0 when every one of them is 0; `TopicTotalMeaning` states what it totals |
| Statistics.NumeralTopics | scripts/regenerate_cascading_filters.py:116 | `parts_of_speech.get("numeral", set())` is the stored numeral topic set, or empty when there is no numeral key |
| Statistics.NumeralCount | scripts/regenerate_cascading_filters.py:117 | `numeral_count` is at most the number of words, and is 0 exactly when no word has part of speech `"numeral"` |
| Statistics.PosStatistics | scripts/regenerate_cascading_filters.py:111-113 | one report line per part of speech, in dict order, with its title-cased name and its number of topics |
| Statistics.NumeralBreakdown | scripts/regenerate_cascading_filters.py:116-125 | the numeral topics, one line each, in strictly ascending order; a topic is listed iff it is a numeral topic |
| Statistics.TotalIsOccurrences | scripts/regenerate_cascading_filters.py:112 | summing counts looked up in `topic_counts` is summing the numbers of words they stand for |
| Statistics.OccurrenceTotalCounts | scripts/regenerate_cascading_filters.py:112 | over a list naming every topic of a part of speech once, those numbers add up to the words with that part of speech and a topic |
| Statistics.TopicTotalMeaning | scripts/regenerate_cascading_filters.py:111-112 | the word total of a part of speech, summed over its topics in any order, is the number of words with that part of speech and a non-empty topic |
| Statistics.PosStatisticsMeaning | scripts/regenerate_cascading_filters.py:111-113 | each report line's word total is that number of words, and its topic count is the number of distinct topics seen |
| Statistics.NumeralCountSplit | scripts/regenerate_cascading_filters.py:117 | every word tagged `"numeral"` has either a non-empty topic or an empty one, and is counted once |
| Statistics.NumeralCountVersusTotal | scripts/regenerate_cascading_filters.py:112-117 | `numeral_count` equals the numeral total from `topic_counts` plus the numerals without a topic, so it is never below that total |
| Statistics.NumeralBreakdownMeaning | scripts/regenerate_cascading_filters.py:116-125 | the breakdown lists exactly the numeral topics seen, each with its number of words, which is positive |
| Regenerate.NamesUnique | scripts/regenerate_cascading_filters.py:69-77 | the built entries are one per part of speech and have distinct English names |
| Regenerate.NamesAreParts | scripts/regenerate_cascading_filters.py:69-77 | an entry is built iff it is the display name and entry of some part of speech |
| Regenerate.EntryMeaning | scripts/regenerate_cascading_filters.py:56-104 | every written entry is keyed by its part of speech's display name and carries that tag's Korean name (the tag itself outside the table). Its topic list is strictly ascending and holds exactly the topics seen for that tag |
| Regenerate.EveryPartHasEntry | scripts/regenerate_cascading_filters.py:38-104 | every part of speech of a counted word gets an entry in the written index |
| Regenerate.RegenerateFilters | scripts/regenerate_cascading_filters.py:35-104 | the pipeline as a whole. `topic_counts` holds exactly the occurring combinations with their numbers of words. The entries are a permutation of one entry per part of speech, each meaning what `EntryMeaning` states. Every counted part of speech has an entry, and the standard ones come first, in `pos_order` |

## Left out

- Reading `korean-words.json` and writing `cascading_filters.json` are not modelled, nor is the error handling around them (lines 19–29, 128–133). This is file I/O and JSON; the word list is a parameter.
- The console output is not modelled (lines 31–32, 106–125, 135–137). The values reported at lines 111–125 are kept as the functions of `Statistics`.
- The two totals printed at lines 106–107, `len(parts_of_speech)` and `len(topic_counts)`, have no function of their own: they are the lengths of the two dicts that `CountAndGroup` returns.
- The `generation_date` field is not in `CascadingFilters`, because it is a fixed string (line 52).
- Text.Title: follows Python's `str.title()` for ASCII letters only. Every other character is left unchanged. That is right for Hangul and the other uncased characters, but wrong for non-ASCII cased letters. It is also wrong for an ASCII letter right after one of them: the model treats such a letter as uncased and so upper-cases the letter after it (`naïve` gives `NaïVe`, where Python gives `Naïve`).
- Grouping.TopicCounts: the `"pos:topic"` string key is modelled as the pair `(pos, topic)`. The collisions the string form allows when a field contains `':'` are not modelled.
- Grouping.Word: a word is the pair of its two string fields, and a missing field is the empty string. Non-string JSON values (numbers, `null`, lists) are not modelled. For line 117 a missing part of speech is `None` in the script and `""` here; both differ from `"numeral"`.
- Statistics.PosStatistics: sums a topic set in ascending order instead of Python's unspecified set order. `TopicTotalMeaning` shows that every order gives the same total.
- Python's iteration order is needed only for dicts (insertion order), and that is modelled. Set iteration order is never observable in the output, because topic lists are sorted before they are written.
- The repository's JavaScript learning-session logic (session selection and unlocking) is not part of this model. It is not in the modelled script.
