/**
 The second stage: one entry of `cascading_filters["parts_of_speech"]` per
 part of speech, keyed by the display name `"<Title> - <korean>"`.
 */
module Entries {
  import opened OrderedDicts
  import opened Text

  /** The value stored under a display name. */
  datatype PosEntry = PosEntry(topics: seq<string>, englishName: string, koreanName: string)

  /** `pos_korean_names`: the Korean names of the nine standard tags. */
  const KOREAN_NAMES: map<string, string> := map[
    "noun" := "명사",
    "verb" := "동사",
    "adjective" := "형용사",
    "adverb" := "부사",
    "determiner" := "관형사",
    "pronoun" := "대명사",
    "numeral" := "수사",
    "particle" := "조사",
    "interjection" := "감탄사"
  ]

  /**
   `pos_korean_names.get(pos, pos)`: the table's name for a standard tag, and
   the tag itself for any other, so the name equals the tag exactly when the
   tag is not in the table.
   */
  function KoreanName(pos: string): (r: string)
    ensures pos in KOREAN_NAMES ==> r == KOREAN_NAMES[pos]
    ensures r == pos <==> pos !in KOREAN_NAMES
  {
    if pos in KOREAN_NAMES then KOREAN_NAMES[pos] else pos
  }

  /**
   `f"{pos.title()} - {korean_name}"`: the title-cased tag, the separator
   `" - "` right after it, and the Korean name at the end.
   */
  function DisplayName(pos: string): (r: string)
    ensures |r| == |pos| + 3 + |KoreanName(pos)|
    ensures r[..|pos|] == Title(pos)
    ensures r[|pos|..|pos| + 3] == " - "
    ensures r[|pos| + 3..] == KoreanName(pos)
  {
    Title(pos) + " - " + KoreanName(pos)
  }

  /**
   The entry built for one part of speech and its collected topics: the
   topics once each in ascending order, the tag, and its Korean name.
   */
  function MakeEntry(pos: string, topics: set<string>): (r: PosEntry)
    ensures Ascending(r.topics) && |r.topics| == |topics|
    ensures forall t :: t in r.topics <==> t in topics
    ensures r.englishName == pos && r.koreanName == KoreanName(pos)
  {
    PosEntry(Sorted(topics), pos, KoreanName(pos))
  }

  /** The entry the loop stores for one item of `parts_of_speech`. */
  function EntryFor(p: (string, set<string>)): (string, PosEntry)
  {
    (DisplayName(p.0), MakeEntry(p.0, p.1))
  }

  /** `cascading_filters["parts_of_speech"]` after the loop has seen `parts`. */
  function EntriesOf(parts: Dict<string, set<string>>): (r: Dict<string, PosEntry>)
    ensures UniqueKeys(r)
  {
    PutEach(parts, EntryFor)
  }

  /** The loop that fills `parts_of_speech`, entry by entry. */
  method BuildEntries(parts: Dict<string, set<string>>) returns (entries: Dict<string, PosEntry>)
    ensures entries == EntriesOf(parts)
    ensures UniqueKeys(parts) ==>
      && |entries| == |parts|
      && forall i :: 0 <= i < |parts| ==> entries[i] == (DisplayName(parts[i].0), MakeEntry(parts[i].0, parts[i].1))
  {
    entries := [];
    for i := 0 to |parts|
      invariant entries == EntriesOf(parts[..i])
    {
      EntriesOfStep(parts, i);
      var (pos, topics) := parts[i];
      var koreanName := if pos in KOREAN_NAMES then KOREAN_NAMES[pos] else pos;
      var displayName := Title(pos) + " - " + koreanName;
      entries := Put(entries, displayName, PosEntry(Sorted(topics), pos, koreanName));
    }
    assert parts[..|parts|] == parts;
    if UniqueKeys(parts) {
      EntriesAligned(parts);
    }
  }

  /** One more turn of the loop. */
  lemma EntriesOfStep(parts: Dict<string, set<string>>, i: nat)
    requires i < |parts|
    ensures EntriesOf(parts[..i + 1])
         == Put(EntriesOf(parts[..i]), DisplayName(parts[i].0), MakeEntry(parts[i].0, parts[i].1))
  {
    assert parts[..i + 1][..i] == parts[..i];
    assert parts[..i + 1][i] == parts[i];
    assert EntriesOf(parts[..i + 1]) == Put(EntriesOf(parts[..i]), EntryFor(parts[i]).0, EntryFor(parts[i]).1);
  }

  predicate AllLower(s: string)
  {
    forall i :: 0 <= i < |s| ==> IsLower(s[i])
  }

  /**
   What the display name of a standard tag looks like. The last clause rules
   out the one split of lengths under which two display names could still
   line up, which `NoClash` needs excluded.
   */
  lemma KnownShape(pos: string)
    requires pos in KOREAN_NAMES
    ensures |pos| > 0 && AllLower(pos)
    ensures forall i :: 0 <= i < |KoreanName(pos)| ==> !IsCased(KoreanName(pos)[i])
    ensures (|pos| + |KoreanName(pos)|) % 2 == 1 || |pos| <= |KoreanName(pos)| + 6
  {
  }

  /** Two standard tags never share a display name. */
  lemma KnownKnown(p: string, q: string)
    requires p in KOREAN_NAMES && q in KOREAN_NAMES && p != q && |p| <= |q|
    ensures DisplayName(p) != DisplayName(q)
  {
    KnownShape(p);
    KnownShape(q);
    var dp, dq := DisplayName(p), DisplayName(q);
    if |p| < |q| {
      assert dp[|p|] == ' ';
      assert dq[|p|] == Title(q)[|p|];
      assert IsCased(dq[|p|]);
    } else {
      var i :| 0 <= i < |p| && p[i] != q[i];
      assert dp[i] == Title(p)[i] && dq[i] == Title(q)[i];
      assert ToLower(dp[i]) == p[i] && ToLower(dq[i]) == q[i];
    }
  }

  /**
   A display name `Title(p) + " - " + k`, where `p` starts with a letter and
   `k` has no letters, is never the display name `Title(q) + " - " + q` of a
   tag outside the table, provided the lengths rule out the one split where
   the first character of `q` would fall inside `Title(p)`.
   */
  lemma NoClash(p: string, k: string, q: string)
    requires |p| > 0 && IsCased(p[0])
    requires forall i :: 0 <= i < |k| ==> !IsCased(k[i])
    requires (|p| + |k|) % 2 == 1 || |p| <= |k| + 6
    ensures Title(p) + " - " + k != Title(q) + " - " + q
  {
    var dp, dq := Title(p) + " - " + k, Title(q) + " - " + q;
    if |dp| == |dq| {
      var n := |q| + 3;
      assert |p| + |k| == 2 * |q|;
      assert dp[0] == Title(p)[0];
      assert IsCased(dp[0]);
      assert |p| <= n;
      if n < |p| + 3 {
        assert dp[n] == " - "[n - |p|];
      } else {
        assert dp[n] == k[n - |p| - 3];
      }
      assert !IsCased(dp[n]);
      assert dq[n] == q[0] && dq[0] == Title(q)[0];
      assert IsCased(dq[0]) == IsCased(dq[n]);
    }
  }

  /** A standard tag and any other tag never share a display name. */
  lemma KnownOther(p: string, q: string)
    requires p in KOREAN_NAMES && q !in KOREAN_NAMES
    ensures DisplayName(p) != DisplayName(q)
  {
    KnownShape(p);
    NoClash(p, KoreanName(p), q);
  }

  /** Two tags outside the table never share a display name. */
  lemma OtherOther(p: string, q: string)
    requires p !in KOREAN_NAMES && q !in KOREAN_NAMES && p != q
    ensures DisplayName(p) != DisplayName(q)
  {
    var dp, dq := DisplayName(p), DisplayName(q);
    assert |dp| == 2 * |p| + 3 && |dq| == 2 * |q| + 3;
    if |p| == |q| {
      assert dp[|p| + 3..] == p && dq[|q| + 3..] == q;
    }
  }

  /** Different parts of speech get different display names, so no entry overwrites another. */
  lemma DisplayNameInjective(p: string, q: string)
    requires p != q
    ensures DisplayName(p) != DisplayName(q)
  {
    if p in KOREAN_NAMES && q in KOREAN_NAMES {
      if |p| <= |q| { KnownKnown(p, q); } else { KnownKnown(q, p); }
    } else if p in KOREAN_NAMES {
      KnownOther(p, q);
    } else if q in KOREAN_NAMES {
      KnownOther(q, p);
    } else {
      OtherOther(p, q);
    }
  }

  /**
   Each part of speech gets its own entry, in the order of `parts`: the entry
   at position i is the one built from the i-th part of speech, so the
   English names of the entries are distinct.
   */
  lemma EntriesAligned(parts: Dict<string, set<string>>)
    requires UniqueKeys(parts)
    ensures |EntriesOf(parts)| == |parts|
    ensures forall i :: 0 <= i < |parts| ==> EntriesOf(parts)[i] == EntryFor(parts[i])
  {
    forall i, j | 0 <= i < j < |parts| ensures EntryFor(parts[i]).0 != EntryFor(parts[j]).0 {
      DisplayNameInjective(parts[i].0, parts[j].0);
    }
    PutEachDistinct(parts, EntryFor);
  }
}
