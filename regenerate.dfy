/**
 The whole aggregation of the regeneration script, from the word list to the
 `cascading_filters` structure it writes (less the fixed `generation_date`).
 */
module Regenerate {
  import opened OrderedDicts
  import opened Text
  import opened Grouping
  import opened Entries
  import opened Reordering

  /** `cascading_filters`: the reordered entries and `dict(topic_counts)`. */
  datatype CascadingFilters = CascadingFilters(partsOfSpeech: Dict<string, PosEntry>, topicCounts: Dict<Combo, nat>)

  /** The entries built from a dict with unique keys carry distinct English names. */
  lemma NamesUnique(parts: Dict<string, set<string>>)
    requires UniqueKeys(parts)
    ensures |EntriesOf(parts)| == |parts|
    ensures UniqueNames(EntriesOf(parts))
  {
    EntriesAligned(parts);
  }

  /** The built entries are exactly one per part of speech of `parts`. */
  lemma NamesAreParts(parts: Dict<string, set<string>>, x: Entry)
    requires UniqueKeys(parts)
    ensures x in EntriesOf(parts) <==>
      exists i :: 0 <= i < |parts| && x == (DisplayName(parts[i].0), MakeEntry(parts[i].0, parts[i].1))
  {
    EntriesAligned(parts);
    if x in EntriesOf(parts) {
      var i :| 0 <= i < |EntriesOf(parts)| && EntriesOf(parts)[i] == x;
    }
  }

  /** The reordered entries of a word list. */
  function FinalEntries(words: seq<Word>): Dict<string, PosEntry>
  {
    Reorder(EntriesOf(PartsOfSpeech(words)))
  }

  /** What each entry written out says about the words. */
  lemma EntryMeaning(words: seq<Word>, x: Entry)
    requires x in FinalEntries(words)
    ensures x.0 == DisplayName(x.1.englishName)
    ensures x.1.koreanName == KoreanName(x.1.englishName)
    ensures Ascending(x.1.topics)
    ensures TopicsSeen(words, x.1.englishName) != {}
    ensures forall t :: t in x.1.topics <==> t in TopicsSeen(words, x.1.englishName)
  {
    var parts := PartsOfSpeech(words);
    PartsOfSpeechMeaning(words);
    ReorderIsPermutation(EntriesOf(parts));
    assert multiset(FinalEntries(words))[x] > 0;
    NamesAreParts(parts, x);
    var i :| 0 <= i < |parts| && x == (DisplayName(parts[i].0), MakeEntry(parts[i].0, parts[i].1));
    assert parts[i].0 in Keys(parts);
  }

  /** Every part of speech of a tagged word has an entry written out. */
  lemma EveryPartHasEntry(words: seq<Word>, pos: string)
    requires TopicsSeen(words, pos) != {}
    ensures exists i :: 0 <= i < |FinalEntries(words)| && FinalEntries(words)[i].1.englishName == pos
  {
    var parts := PartsOfSpeech(words);
    var entries := EntriesOf(parts);
    PartsOfSpeechMeaning(words);
    EntriesAligned(parts);
    ReorderIsPermutation(entries);
    var i := IndexOf(parts, pos);
    assert entries[i] in entries;
    assert multiset(entries)[entries[i]] > 0;
    var sorted := FinalEntries(words);
    assert entries[i] in sorted;
    var k :| 0 <= k < |sorted| && sorted[k] == entries[i];
  }

  /** The three stages in turn, as `main()` runs them between reading and writing the files. */
  method RegenerateFilters(words: seq<Word>) returns (filters: CascadingFilters)
    ensures filters.topicCounts == TopicCounts(words)
    ensures UniqueKeys(filters.topicCounts)
    ensures forall c :: GetOr(filters.topicCounts, c, 0) == Occurrences(words, c)
    ensures forall c :: c in Keys(filters.topicCounts) <==> Occurrences(words, c) > 0
    ensures filters.partsOfSpeech == FinalEntries(words)
    ensures UniqueKeys(filters.partsOfSpeech)
    ensures multiset(filters.partsOfSpeech) == multiset(EntriesOf(PartsOfSpeech(words)))
    ensures forall x :: x in filters.partsOfSpeech ==>
      && x.0 == DisplayName(x.1.englishName)
      && x.1.koreanName == KoreanName(x.1.englishName)
      && Ascending(x.1.topics)
      && TopicsSeen(words, x.1.englishName) != {}
      && forall t :: t in x.1.topics <==> t in TopicsSeen(words, x.1.englishName)
    ensures forall pos :: TopicsSeen(words, pos) != {} ==>
      exists i :: 0 <= i < |filters.partsOfSpeech| && filters.partsOfSpeech[i].1.englishName == pos
    ensures StandardFirst(EntriesOf(PartsOfSpeech(words)), filters.partsOfSpeech, POS_ORDER)
  {
    var parts, counts := CountAndGroup(words);
    var entries := BuildEntries(parts);
    var sorted := ReorderEntries(entries);
    filters := CascadingFilters(sorted, counts);
    NamesUnique(parts);
    TopicCountsMeaning(words);
    forall x | x in sorted
      ensures && x.0 == DisplayName(x.1.englishName)
              && x.1.koreanName == KoreanName(x.1.englishName)
              && Ascending(x.1.topics)
              && TopicsSeen(words, x.1.englishName) != {}
              && forall t :: t in x.1.topics <==> t in TopicsSeen(words, x.1.englishName)
    {
      EntryMeaning(words, x);
    }
    forall pos | TopicsSeen(words, pos) != {}
      ensures exists i :: 0 <= i < |sorted| && sorted[i].1.englishName == pos
    {
      EveryPartHasEntry(words, pos);
    }
  }
}
