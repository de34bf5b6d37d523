/**
 The tallies the script reports once the index is built: a word total and a
 topic count per part of speech, how many words are tagged `"numeral"`, and
 the count of each numeral topic. Only the values are modelled; printing
 them is not.
 */
module Statistics {
  import opened OrderedDicts
  import opened Text
  import opened Grouping

  /**
   `sum(topic_counts.get(f"{pos}:{topic}", 0) for topic in topics)`, the
   topics taken in the order `ts`.
   */
  function TopicTotal(counts: Dict<Combo, nat>, pos: string, ts: seq<string>): (r: nat)
    ensures forall t :: t in ts ==> GetOr(counts, (pos, t), 0) <= r
    ensures (forall t :: t in ts ==> GetOr(counts, (pos, t), 0) == 0) ==> r == 0
  {
    if ts == [] then 0
    else TopicTotal(counts, pos, ts[..|ts| - 1]) + GetOr(counts, (pos, ts[|ts| - 1]), 0)
  }

  /** One line of the per-part-of-speech report. */
  datatype PosLine = PosLine(title: string, totalWords: nat, topicCount: nat)

  /**
   The report for every part of speech, in the order of `parts_of_speech`.
   A set is summed in whatever order it yields; here the topics are taken in
   ascending order, and `TopicTotalMeaning` shows that any order listing each
   topic once gives the same total.
   */
  function PosStatistics(parts: Dict<string, set<string>>, counts: Dict<Combo, nat>): (r: seq<PosLine>)
    ensures |r| == |parts|
    ensures forall i :: 0 <= i < |parts| ==> r[i].title == Title(parts[i].0) && r[i].topicCount == |parts[i].1|
  {
    seq(|parts|, i requires 0 <= i < |parts| =>
      PosLine(Title(parts[i].0), TopicTotal(counts, parts[i].0, Sorted(parts[i].1)), |parts[i].1|))
  }

  /** `parts_of_speech.get("numeral", set())`: the numeral topics, without inserting a key. */
  function NumeralTopics(parts: Dict<string, set<string>>): (r: set<string>)
    ensures "numeral" in Keys(parts) ==> ("numeral", r) in parts
    ensures "numeral" !in Keys(parts) ==> r == {}
  {
    GetOr(parts, "numeral", {})
  }

  /** `numeral_count`: every word whose part of speech is `"numeral"`, whatever its topic. */
  function NumeralCount(words: seq<Word>): (r: nat)
    ensures r <= |words|
    ensures r == 0 <==> forall i :: 0 <= i < |words| ==> words[i].partOfSpeech != "numeral"
  {
    if words == [] then 0
    else NumeralCount(words[..|words| - 1]) + if words[|words| - 1].partOfSpeech == "numeral" then 1 else 0
  }

  /** The numeral topics in ascending order, each with its count from `topic_counts`. */
  function NumeralBreakdown(parts: Dict<string, set<string>>, counts: Dict<Combo, nat>): (r: seq<(string, nat)>)
    ensures |r| == |NumeralTopics(parts)|
    ensures forall i, j :: 0 <= i < j < |r| ==> Before(r[i].0, r[j].0)
    ensures forall t :: t in NumeralTopics(parts) <==> exists i :: 0 <= i < |r| && r[i].0 == t
  {
    var topics := Sorted(NumeralTopics(parts));
    var r := seq(|topics|, i requires 0 <= i < |topics| => (topics[i], GetOr(counts, ("numeral", topics[i]), 0)));
    assert forall i :: 0 <= i < |r| ==> r[i].0 == topics[i];
    r
  }

  // Reference definitions.

  /** How many words have part of speech `pos` and a non-empty topic. */
  function TaggedWith(words: seq<Word>, pos: string): nat
  {
    if words == [] then 0
    else
      var w := words[|words| - 1];
      TaggedWith(words[..|words| - 1], pos) + if Tagged(w) && w.partOfSpeech == pos then 1 else 0
  }

  /** How many words have part of speech `pos` and an empty topic. */
  function UntopicedWith(words: seq<Word>, pos: string): nat
  {
    if words == [] then 0
    else
      var w := words[|words| - 1];
      UntopicedWith(words[..|words| - 1], pos) + if w.partOfSpeech == pos && w.topic == "" then 1 else 0
  }

  /** The number of words of each combination `(pos, t)`, summed over the topics `ts`. */
  function OccurrenceTotal(words: seq<Word>, pos: string, ts: seq<string>): nat
  {
    if ts == [] then 0
    else OccurrenceTotal(words, pos, ts[..|ts| - 1]) + Occurrences(words, (pos, ts[|ts| - 1]))
  }

  // Proofs.

  /** Summing the looked-up counts is summing the occurrences they stand for. */
  lemma {:induction false} TotalIsOccurrences(words: seq<Word>, pos: string, ts: seq<string>)
    ensures TopicTotal(TopicCounts(words), pos, ts) == OccurrenceTotal(words, pos, ts)
  {
    if ts != [] {
      TotalIsOccurrences(words, pos, ts[..|ts| - 1]);
      TopicCountsMeaning(words);
    }
  }

  /** A word added at the end adds one to the total for each time its topic is listed. */
  lemma {:induction false} OccurrenceTotalSnoc(words: seq<Word>, w: Word, pos: string, ts: seq<string>)
    ensures OccurrenceTotal(words + [w], pos, ts)
         == OccurrenceTotal(words, pos, ts) + if Tagged(w) && w.partOfSpeech == pos then multiset(ts)[w.topic] else 0
  {
    var ws := words + [w];
    assert ws[..|ws| - 1] == words && ws[|ws| - 1] == w;
    if ts != [] {
      var n := |ts| - 1;
      OccurrenceTotalSnoc(words, w, pos, ts[..n]);
      assert ts == ts[..n] + [ts[n]];
    }
  }

  /** Over a list naming every topic seen for `pos` once, the occurrences add up to the words tagged `pos`. */
  lemma {:induction false} OccurrenceTotalCounts(words: seq<Word>, pos: string, ts: seq<string>)
    requires Distinct(ts)
    requires forall t :: t in TopicsSeen(words, pos) ==> t in ts
    ensures OccurrenceTotal(words, pos, ts) == TaggedWith(words, pos)
  {
    if words == [] {
      EmptyTotal(pos, ts);
    } else {
      var n := |words| - 1;
      var prefix, w := words[..n], words[n];
      assert words == prefix + [w];
      TopicsSeenSnoc(prefix, w, pos);
      OccurrenceTotalCounts(prefix, pos, ts);
      OccurrenceTotalSnoc(prefix, w, pos, ts);
      if Tagged(w) && w.partOfSpeech == pos {
        assert w.topic in TopicsSeen(words, pos);
        DistinctMultiplicity(ts, w.topic);
      }
    }
  }

  lemma {:induction false} EmptyTotal(pos: string, ts: seq<string>)
    ensures OccurrenceTotal([], pos, ts) == 0
  {
    if ts != [] {
      EmptyTotal(pos, ts[..|ts| - 1]);
    }
  }

  /**
   The total for a part of speech, summed over its collected topics in any
   order that lists each once, is the number of words with that part of
   speech and a non-empty topic.
   */
  lemma TopicTotalMeaning(words: seq<Word>, pos: string, ts: seq<string>)
    requires Distinct(ts)
    requires forall t :: t in ts <==> t in GetOr(PartsOfSpeech(words), pos, {})
    ensures TopicTotal(TopicCounts(words), pos, ts) == TaggedWith(words, pos)
  {
    PartsOfSpeechMeaning(words);
    TotalIsOccurrences(words, pos, ts);
    OccurrenceTotalCounts(words, pos, ts);
  }

  /** Strictly ascending lists repeat nothing. */
  lemma AscendingDistinct(r: seq<string>)
    requires Ascending(r)
    ensures Distinct(r)
  {
  }

  /** Each reported line gives the number of words of that part of speech and its number of topics. */
  lemma PosStatisticsMeaning(words: seq<Word>)
    ensures forall i :: 0 <= i < |PartsOfSpeech(words)| ==>
      && PosStatistics(PartsOfSpeech(words), TopicCounts(words))[i].totalWords == TaggedWith(words, PartsOfSpeech(words)[i].0)
      && PosStatistics(PartsOfSpeech(words), TopicCounts(words))[i].topicCount == |TopicsSeen(words, PartsOfSpeech(words)[i].0)|
  {
    var parts, counts := PartsOfSpeech(words), TopicCounts(words);
    PartsOfSpeechMeaning(words);
    forall i | 0 <= i < |parts|
      ensures PosStatistics(parts, counts)[i].totalWords == TaggedWith(words, parts[i].0)
    {
      var (pos, topics) := parts[i];
      IndexOfIsOnly(parts, pos, i);
      AscendingDistinct(Sorted(topics));
      TopicTotalMeaning(words, pos, Sorted(topics));
    }
  }

  /** Every word tagged `"numeral"` either has a topic and is counted in `topic_counts`, or has none. */
  lemma {:induction false} NumeralCountSplit(words: seq<Word>)
    ensures NumeralCount(words) == TaggedWith(words, "numeral") + UntopicedWith(words, "numeral")
  {
    if words != [] {
      NumeralCountSplit(words[..|words| - 1]);
    }
  }

  /**
   `numeral_count` is the numeral total derived from `topic_counts` plus the
   numerals without a topic, so it is never below that total.
   */
  lemma NumeralCountVersusTotal(words: seq<Word>)
    ensures NumeralCount(words)
         == TopicTotal(TopicCounts(words), "numeral", Sorted(NumeralTopics(PartsOfSpeech(words))))
          + UntopicedWith(words, "numeral")
    ensures NumeralCount(words) >= TopicTotal(TopicCounts(words), "numeral", Sorted(NumeralTopics(PartsOfSpeech(words))))
  {
    var ts := Sorted(NumeralTopics(PartsOfSpeech(words)));
    AscendingDistinct(ts);
    TopicTotalMeaning(words, "numeral", ts);
    NumeralCountSplit(words);
  }

  /**
   The numeral breakdown lists each numeral topic seen, once and in ascending
   order, with the number of words of that topic, which is never zero.
   */
  lemma NumeralBreakdownMeaning(words: seq<Word>)
    ensures forall t :: t in TopicsSeen(words, "numeral") <==>
      exists i :: 0 <= i < |NumeralBreakdown(PartsOfSpeech(words), TopicCounts(words))|
        && NumeralBreakdown(PartsOfSpeech(words), TopicCounts(words))[i].0 == t
    ensures forall i :: 0 <= i < |NumeralBreakdown(PartsOfSpeech(words), TopicCounts(words))| ==>
      && NumeralBreakdown(PartsOfSpeech(words), TopicCounts(words))[i].1
         == Occurrences(words, ("numeral", NumeralBreakdown(PartsOfSpeech(words), TopicCounts(words))[i].0))
      && NumeralBreakdown(PartsOfSpeech(words), TopicCounts(words))[i].1 > 0
  {
    var r := NumeralBreakdown(PartsOfSpeech(words), TopicCounts(words));
    PartsOfSpeechMeaning(words);
    TopicCountsMeaning(words);
    forall i | 0 <= i < |r| ensures r[i].1 > 0 {
      TopicSeenIffCounted(words, "numeral", r[i].0);
    }
  }
}
