/**
 The first stage of the cascading-filters index: one pass over the word list
 that counts every part-of-speech/topic combination (`topic_counts`) and
 collects the topics seen for each part of speech (`parts_of_speech`).
 */
module Grouping {
  import opened OrderedDicts

  /**
   A word of the word list, reduced to the two fields the index reads. A field
   that is absent from the word's JSON object is the empty string, as
   `word.get(field, "")` makes it.
   */
  datatype Word = Word(partOfSpeech: string, topic: string)

  /** A `"pos:topic"` key of `topic_counts`, kept as the pair it is built from. */
  type Combo = (string, string)

  /** A word takes part in the index only when both fields are non-empty. */
  predicate Tagged(w: Word)
  {
    w.partOfSpeech != "" && w.topic != ""
  }

  function ComboOf(w: Word): Combo
  {
    (w.partOfSpeech, w.topic)
  }

  // Reference definitions: what the index is meant to record about the words.

  /** How many tagged words have exactly the part of speech and topic of `c`. */
  function Occurrences(words: seq<Word>, c: Combo): nat
  {
    if words == [] then 0
    else
      var w := words[|words| - 1];
      Occurrences(words[..|words| - 1], c) + if Tagged(w) && ComboOf(w) == c then 1 else 0
  }

  /** The topics of the tagged words whose part of speech is `pos`. */
  ghost function TopicsSeen(words: seq<Word>, pos: string): set<string>
  {
    set i | 0 <= i < |words| && Tagged(words[i]) && words[i].partOfSpeech == pos :: words[i].topic
  }

  /** How many words have both fields non-empty. */
  function TaggedCount(words: seq<Word>): nat
  {
    if words == [] then 0
    else TaggedCount(words[..|words| - 1]) + if Tagged(words[|words| - 1]) then 1 else 0
  }

  /** The tagged words, in their order. */
  function TaggedOnly(words: seq<Word>): seq<Word>
  {
    if words == [] then []
    else
      var w := words[|words| - 1];
      TaggedOnly(words[..|words| - 1]) + if Tagged(w) then [w] else []
  }

  /** Index of the first tagged word with part of speech `pos`, or `|words|` if there is none. */
  function FirstAt(words: seq<Word>, pos: string): (r: nat)
    ensures r <= |words|
    ensures r < |words| ==> Tagged(words[r]) && words[r].partOfSpeech == pos
    ensures forall i :: 0 <= i < r && i < |words| ==> !(Tagged(words[i]) && words[i].partOfSpeech == pos)
  {
    if words == [] then 0
    else if Tagged(words[0]) && words[0].partOfSpeech == pos then 0
    else
      var r := 1 + FirstAt(words[1..], pos);
      assert forall i :: 1 <= i < |words| ==> words[i] == words[1..][i - 1];
      r
  }

  // The loop of the script, one word at a time.

  /** `parts_of_speech` after the loop has seen `words`. */
  function PartsOfSpeech(words: seq<Word>): (r: Dict<string, set<string>>)
    ensures UniqueKeys(r)
  {
    if words == [] then []
    else
      var prev := PartsOfSpeech(words[..|words| - 1]);
      var w := words[|words| - 1];
      if Tagged(w) then Put(prev, w.partOfSpeech, GetOr(prev, w.partOfSpeech, {}) + {w.topic})
      else prev
  }

  /** `topic_counts` after the loop has seen `words`. */
  function TopicCounts(words: seq<Word>): (r: Dict<Combo, nat>)
    ensures UniqueKeys(r)
  {
    if words == [] then []
    else
      var prev := TopicCounts(words[..|words| - 1]);
      var w := words[|words| - 1];
      if Tagged(w) then Put(prev, ComboOf(w), GetOr(prev, ComboOf(w), 0) + 1)
      else prev
  }

  /** The counting and grouping loop, with what the two dicts hold when it ends. */
  method CountAndGroup(words: seq<Word>) returns (parts: Dict<string, set<string>>, counts: Dict<Combo, nat>)
    ensures parts == PartsOfSpeech(words) && counts == TopicCounts(words)
    ensures UniqueKeys(parts) && UniqueKeys(counts)
    ensures forall pos :: pos in Keys(parts) <==> TopicsSeen(words, pos) != {}
    ensures forall i :: 0 <= i < |parts| ==> parts[i].1 == TopicsSeen(words, parts[i].0)
    ensures forall c :: c in Keys(counts) <==> Occurrences(words, c) > 0
    ensures forall i :: 0 <= i < |counts| ==> counts[i].1 == Occurrences(words, counts[i].0)
  {
    parts, counts := [], [];
    for i := 0 to |words|
      invariant parts == PartsOfSpeech(words[..i])
      invariant counts == TopicCounts(words[..i])
    {
      var w := words[i];
      assert words[..i + 1][..i] == words[..i];
      var pos, topic := w.partOfSpeech, w.topic;
      if pos != "" && topic != "" {
        parts := Put(parts, pos, GetOr(parts, pos, {}) + {topic});
        counts := Put(counts, (pos, topic), GetOr(counts, (pos, topic), 0) + 1);
      }
    }
    assert words[..|words|] == words;
    PartsOfSpeechMeaning(words);
    TopicCountsMeaning(words);
  }

  // What the two dicts mean.

  lemma TopicsSeenSnoc(words: seq<Word>, w: Word, pos: string)
    ensures TopicsSeen(words + [w], pos)
         == TopicsSeen(words, pos) + if Tagged(w) && w.partOfSpeech == pos then {w.topic} else {}
  {
    var ws := words + [w];
    assert forall i :: 0 <= i < |words| ==> ws[i] == words[i];
    assert ws[|words|] == w;
    forall t | t in TopicsSeen(ws, pos)
      ensures t in TopicsSeen(words, pos) || (Tagged(w) && w.partOfSpeech == pos && t == w.topic)
    {
      var i :| 0 <= i < |ws| && Tagged(ws[i]) && ws[i].partOfSpeech == pos && ws[i].topic == t;
      if i < |words| {
        assert words[i].topic == t;
      }
    }
  }

  /**
   `parts_of_speech` has a key for exactly the parts of speech of tagged words,
   and under each the topics of those words.
   */
  lemma {:induction false} PartsOfSpeechMeaning(words: seq<Word>)
    ensures forall pos :: pos in Keys(PartsOfSpeech(words)) <==> TopicsSeen(words, pos) != {}
    ensures forall i :: 0 <= i < |PartsOfSpeech(words)| ==>
      PartsOfSpeech(words)[i].1 == TopicsSeen(words, PartsOfSpeech(words)[i].0)
    ensures forall pos :: GetOr(PartsOfSpeech(words), pos, {}) == TopicsSeen(words, pos)
  {
    var r := PartsOfSpeech(words);
    if words != [] {
      var n := |words| - 1;
      var prefix, w := words[..n], words[n];
      assert words == prefix + [w];
      PartsOfSpeechMeaning(prefix);
      forall pos ensures TopicsSeen(words, pos)
        == TopicsSeen(prefix, pos) + if Tagged(w) && w.partOfSpeech == pos then {w.topic} else {}
      {
        TopicsSeenSnoc(prefix, w, pos);
      }
    }
    forall pos ensures GetOr(r, pos, {}) == TopicsSeen(words, pos) {
      if pos in Keys(r) {
        var i := IndexOf(r, pos);
      }
    }
  }

  /** `topic_counts[c]` is present exactly for the combinations that occur, and holds their number. */
  lemma {:induction false} TopicCountsMeaning(words: seq<Word>)
    ensures forall c :: c in Keys(TopicCounts(words)) <==> Occurrences(words, c) > 0
    ensures forall i :: 0 <= i < |TopicCounts(words)| ==>
      TopicCounts(words)[i].1 == Occurrences(words, TopicCounts(words)[i].0)
    ensures forall c :: GetOr(TopicCounts(words), c, 0) == Occurrences(words, c)
  {
    var r := TopicCounts(words);
    if words != [] {
      var n := |words| - 1;
      var prefix, w := words[..n], words[n];
      TopicCountsMeaning(prefix);
    }
    forall c ensures GetOr(r, c, 0) == Occurrences(words, c) {
      if c in Keys(r) {
        var i := IndexOf(r, c);
      }
    }
  }

  /** A topic is collected for a part of speech exactly when that combination has a positive count. */
  lemma {:induction false} TopicSeenIffCounted(words: seq<Word>, pos: string, topic: string)
    ensures topic in TopicsSeen(words, pos) <==> Occurrences(words, (pos, topic)) > 0
  {
    if words != [] {
      var n := |words| - 1;
      var prefix, w := words[..n], words[n];
      assert words == prefix + [w];
      TopicSeenIffCounted(prefix, pos, topic);
      TopicsSeenSnoc(prefix, w, pos);
    }
  }

  /** One more word at the end of the list is one more turn of the loop. */
  lemma PartsOfSpeechSnoc(words: seq<Word>, w: Word)
    ensures PartsOfSpeech(words + [w])
         == if Tagged(w) then Put(PartsOfSpeech(words), w.partOfSpeech, GetOr(PartsOfSpeech(words), w.partOfSpeech, {}) + {w.topic})
            else PartsOfSpeech(words)
  {
    assert (words + [w])[..|words|] == words;
  }

  lemma TopicCountsSnoc(words: seq<Word>, w: Word)
    ensures TopicCounts(words + [w])
         == if Tagged(w) then Put(TopicCounts(words), ComboOf(w), GetOr(TopicCounts(words), ComboOf(w), 0) + 1)
            else TopicCounts(words)
  {
    var ws := words + [w];
    assert ws[..|ws| - 1] == words && ws[|ws| - 1] == w;
  }

  /** The words the loop skips change neither dict: only tagged words matter. */
  lemma OnlyTaggedMatter(words: seq<Word>)
    ensures PartsOfSpeech(TaggedOnly(words)) == PartsOfSpeech(words)
    ensures TopicCounts(TaggedOnly(words)) == TopicCounts(words)
  {
    PartsOnlyTagged(words);
    CountsOnlyTagged(words);
  }

  lemma {:induction false} PartsOnlyTagged(words: seq<Word>)
    ensures PartsOfSpeech(TaggedOnly(words)) == PartsOfSpeech(words)
  {
    if words != [] {
      var n := |words| - 1;
      var prefix, w := words[..n], words[n];
      PartsOnlyTagged(prefix);
      var t := TaggedOnly(prefix);
      assert TaggedOnly(words) == t + if Tagged(w) then [w] else [];
      assert words == prefix + [w];
      PartsOfSpeechSnoc(prefix, w);
      if Tagged(w) {
        PartsOfSpeechSnoc(t, w);
      } else {
        assert TaggedOnly(words) == t;
      }
    }
  }

  lemma {:induction false} CountsOnlyTagged(words: seq<Word>)
    ensures TopicCounts(TaggedOnly(words)) == TopicCounts(words)
  {
    if words != [] {
      var n := |words| - 1;
      var prefix, w := words[..n], words[n];
      CountsOnlyTagged(prefix);
      var t := TaggedOnly(prefix);
      assert TaggedOnly(words) == t + if Tagged(w) then [w] else [];
      assert words == prefix + [w];
      TopicCountsSnoc(prefix, w);
      if Tagged(w) {
        TopicCountsSnoc(t, w);
      } else {
        assert TaggedOnly(words) == t;
      }
    }
  }

  /** The sum of the values of a counts dict. */
  function SumValues(d: Dict<Combo, nat>): nat
  {
    if d == [] then 0 else d[0].1 + SumValues(d[1..])
  }

  lemma {:induction false} SumValuesAppend(d: Dict<Combo, nat>, x: (Combo, nat))
    ensures SumValues(d + [x]) == SumValues(d) + x.1
  {
    if d != [] {
      assert (d + [x])[1..] == d[1..] + [x];
      SumValuesAppend(d[1..], x);
    }
  }

  lemma {:induction false} SumValuesUpdate(d: Dict<Combo, nat>, i: nat, x: (Combo, nat))
    requires i < |d|
    ensures SumValues(d[i := x]) == SumValues(d) - d[i].1 + x.1
  {
    if i > 0 {
      assert d[i := x][1..] == d[1..][i - 1 := x];
      SumValuesUpdate(d[1..], i - 1, x);
    }
  }

  /** Adding one to a count, as `topic_counts[key] += 1` does, adds one to the total. */
  lemma SumValuesIncrement(d: Dict<Combo, nat>, c: Combo)
    requires UniqueKeys(d)
    ensures SumValues(Put(d, c, GetOr(d, c, 0) + 1)) == SumValues(d) + 1
  {
    if c in Keys(d) {
      SumValuesUpdate(d, IndexOf(d, c), (c, GetOr(d, c, 0) + 1));
    } else {
      SumValuesAppend(d, (c, 1));
    }
  }

  /** The counts add up to the number of tagged words. */
  lemma {:induction false} SumOfCounts(words: seq<Word>)
    ensures SumValues(TopicCounts(words)) == TaggedCount(words)
  {
    if words != [] {
      var n := |words| - 1;
      SumOfCounts(words[..n]);
      if Tagged(words[n]) {
        SumValuesIncrement(TopicCounts(words[..n]), ComboOf(words[n]));
      }
    }
  }

  /** The word `FirstAt` finds contributes its topic. */
  lemma FirstAtSeen(words: seq<Word>, pos: string)
    ensures FirstAt(words, pos) < |words| ==> words[FirstAt(words, pos)].topic in TopicsSeen(words, pos)
  {
  }

  /** `FirstAt` is unchanged by a word added at the end, unless the part of speech is new. */
  lemma FirstAtSnoc(words: seq<Word>, w: Word, pos: string)
    ensures FirstAt(words + [w], pos)
         == if FirstAt(words, pos) < |words| then FirstAt(words, pos)
            else if Tagged(w) && w.partOfSpeech == pos then |words| else |words| + 1
  {
    var ws := words + [w];
    var a, b := FirstAt(words, pos), FirstAt(ws, pos);
    assert forall i :: 0 <= i < |words| ==> ws[i] == words[i];
    if a < |words| {
      assert ws[a] == words[a];
    } else {
      assert ws[|words|] == w;
    }
  }

  /**
   The keys of `parts_of_speech` stand in the order in which their parts of
   speech first appear among the tagged words.
   */
  lemma {:induction false} PartsOfSpeechOrder(words: seq<Word>)
    ensures forall i :: 0 <= i < |PartsOfSpeech(words)| ==> FirstAt(words, PartsOfSpeech(words)[i].0) < |words|
    ensures forall i, j :: 0 <= i < j < |PartsOfSpeech(words)| ==>
      FirstAt(words, PartsOfSpeech(words)[i].0) < FirstAt(words, PartsOfSpeech(words)[j].0)
  {
    if words != [] {
      var n := |words| - 1;
      var prefix, w := words[..n], words[n];
      assert words == prefix + [w];
      PartsOfSpeechOrder(prefix);
      PartsOfSpeechMeaning(prefix);
      var prev, r := PartsOfSpeech(prefix), PartsOfSpeech(words);
      forall pos ensures FirstAt(words, pos)
        == if FirstAt(prefix, pos) < n then FirstAt(prefix, pos)
           else if Tagged(w) && w.partOfSpeech == pos then n else n + 1
      {
        FirstAtSnoc(prefix, w, pos);
      }
      if Tagged(w) && w.partOfSpeech !in Keys(prev) {
        var pos := w.partOfSpeech;
        assert TopicsSeen(prefix, pos) == {};
        FirstAtSeen(prefix, pos);
        assert r == prev + [(pos, GetOr(prev, pos, {}) + {w.topic})];
      }
    }
  }
}
