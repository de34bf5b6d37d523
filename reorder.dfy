/**
 The third stage: `parts_of_speech` is rebuilt so that the entries of the
 nine standard parts of speech come first, in a fixed order, followed by
 every other entry in its original order.
 */
module Reordering {
  import opened OrderedDicts
  import opened Entries

  /** `pos_order`. */
  const POS_ORDER: seq<string> :=
    ["noun", "verb", "adjective", "adverb", "determiner", "pronoun", "numeral", "particle", "interjection"]

  type Entry = (string, PosEntry)

  /** No two entries carry the same English name (as the entries built from a dict's keys do not). */
  predicate UniqueNames(entries: Dict<string, PosEntry>)
  {
    forall i, j :: 0 <= i < j < |entries| ==> entries[i].1.englishName != entries[j].1.englishName
  }

  /** Position of the first entry whose English name is `pos`: where the inner loop breaks. */
  function FirstNamed(entries: Dict<string, PosEntry>, pos: string): (r: Option<nat>)
    ensures r.Some? ==> r.value < |entries| && entries[r.value].1.englishName == pos
    ensures forall j :: 0 <= j < |entries| && (r.None? || j < r.value) ==> entries[j].1.englishName != pos
  {
    if entries == [] then None
    else if entries[0].1.englishName == pos then Some(0)
    else
      assert forall j :: 1 <= j < |entries| ==> entries[j] == entries[1..][j - 1];
      match FirstNamed(entries[1..], pos)
      case None => None
      case Some(i) => Some(i + 1)
  }

  /** `sorted_pos` after the first loop has gone through the tags `ps`. */
  function Front(entries: Dict<string, PosEntry>, ps: seq<string>): (r: Dict<string, PosEntry>)
    ensures UniqueKeys(r)
  {
    if ps == [] then []
    else
      var prev := Front(entries, ps[..|ps| - 1]);
      match FirstNamed(entries, ps[|ps| - 1])
      case None => prev
      case Some(i) => Put(prev, entries[i].0, entries[i].1)
  }

  /** `sorted_pos` after the second loop has gone through `entries`, starting from `acc`. */
  function AddRemaining(acc: Dict<string, PosEntry>, entries: Dict<string, PosEntry>): (r: Dict<string, PosEntry>)
    requires UniqueKeys(acc)
    ensures UniqueKeys(r)
  {
    if entries == [] then acc
    else
      var prev := AddRemaining(acc, entries[..|entries| - 1]);
      var (key, value) := entries[|entries| - 1];
      if key !in Keys(prev) then Put(prev, key, value) else prev
  }

  /** The reordered `parts_of_speech`: it keeps keys unique and starts with what the first loop took. */
  function Reorder(entries: Dict<string, PosEntry>): (r: Dict<string, PosEntry>)
    ensures UniqueKeys(r)
    ensures Front(entries, POS_ORDER) <= r
  {
    var front := Front(entries, POS_ORDER);
    AddRemainingExtends(front, entries);
    AddRemaining(front, entries)
  }

  /** The second loop only ever appends to `sorted_pos`. */
  lemma {:induction false} AddRemainingExtends(acc: Dict<string, PosEntry>, entries: Dict<string, PosEntry>)
    requires UniqueKeys(acc)
    ensures acc <= AddRemaining(acc, entries)
  {
    if entries != [] {
      var n := |entries| - 1;
      AddRemainingExtends(acc, entries[..n]);
      var prev := AddRemaining(acc, entries[..n]);
      var (key, value) := entries[n];
      if key !in Keys(prev) {
        PutNew(prev, key, value);
      }
    }
  }

  /** The reordering of `parts_of_speech`: the standard entries first, then the rest. */
  method ReorderEntries(entries: Dict<string, PosEntry>) returns (sorted: Dict<string, PosEntry>)
    ensures sorted == Reorder(entries)
    ensures UniqueKeys(entries) ==> UniqueKeys(sorted) && multiset(sorted) == multiset(entries)
    ensures UniqueKeys(entries) && UniqueNames(entries) ==> StandardFirst(entries, sorted, POS_ORDER)
  {
    sorted := TakeInOrder(entries, POS_ORDER);
    sorted := AddRest(sorted, entries);
    ReorderProperties(entries, sorted);
  }

  /** The first loop: for each tag of `order`, the first entry with that English name, if any. */
  method TakeInOrder(entries: Dict<string, PosEntry>, order: seq<string>) returns (sorted: Dict<string, PosEntry>)
    ensures sorted == Front(entries, order)
  {
    sorted := [];
    for k := 0 to |order|
      invariant sorted == Front(entries, order[..k])
    {
      FrontPrefixStep(entries, order, k);
      var j := FindNamed(entries, order[k]);
      if j < |entries| {
        sorted := Put(sorted, entries[j].0, entries[j].1);
      }
    }
    FrontAll(entries, order);
  }

  /** The inner loop of the first stage: the index of the first entry named `pos`, or `|entries|` when there is none. */
  method FindNamed(entries: Dict<string, PosEntry>, pos: string) returns (j: nat)
    ensures j <= |entries|
    ensures FirstNamed(entries, pos) == if j < |entries| then Some(j) else None
  {
    j := 0;
    while j < |entries|
      invariant j <= |entries|
      invariant forall m :: 0 <= m < j ==> entries[m].1.englishName != pos
    {
      if entries[j].1.englishName == pos {
        break;
      }
      j := j + 1;
    }
    FirstNamedIs(entries, pos, j);
  }

  /** The second loop: every entry whose key `sorted_pos` does not hold yet, in order. */
  method AddRest(front: Dict<string, PosEntry>, entries: Dict<string, PosEntry>) returns (sorted: Dict<string, PosEntry>)
    requires UniqueKeys(front)
    ensures sorted == AddRemaining(front, entries)
  {
    sorted := front;
    for j := 0 to |entries|
      invariant sorted == AddRemaining(front, entries[..j])
    {
      AddRemainingPrefixStep(front, entries, j);
      var (key, value) := entries[j];
      if key !in Keys(sorted) {
        sorted := Put(sorted, key, value);
      }
    }
    AddRemainingAll(front, entries);
  }

  /** When the first loop has gone through all of `ps`. */
  lemma FrontAll(entries: Dict<string, PosEntry>, ps: seq<string>)
    ensures Front(entries, ps[..|ps|]) == Front(entries, ps)
  {
    assert ps[..|ps|] == ps;
  }

  /** When the second loop has gone through all of `entries`. */
  lemma AddRemainingAll(acc: Dict<string, PosEntry>, entries: Dict<string, PosEntry>)
    requires UniqueKeys(acc)
    ensures AddRemaining(acc, entries[..|entries|]) == AddRemaining(acc, entries)
  {
    assert entries[..|entries|] == entries;
  }

  /** The inner loop's two exits: it stops at the first entry named `pos`, or finds none. */
  lemma FirstNamedIs(entries: Dict<string, PosEntry>, pos: string, j: nat)
    requires j <= |entries|
    requires forall m :: 0 <= m < j ==> entries[m].1.englishName != pos
    requires j < |entries| ==> entries[j].1.englishName == pos
    ensures FirstNamed(entries, pos) == if j < |entries| then Some(j) else None
  {
  }

  /** One more turn of the outer loop of the first stage. */
  lemma FrontPrefixStep(entries: Dict<string, PosEntry>, ps: seq<string>, k: nat)
    requires k < |ps|
    ensures Front(entries, ps[..k + 1])
         == match FirstNamed(entries, ps[k])
            case None => Front(entries, ps[..k])
            case Some(i) => Put(Front(entries, ps[..k]), entries[i].0, entries[i].1)
  {
    assert ps[..k + 1][..k] == ps[..k];
    assert ps[..k + 1][k] == ps[k];
  }

  /** One more turn of the second loop. */
  lemma AddRemainingPrefixStep(acc: Dict<string, PosEntry>, entries: Dict<string, PosEntry>, j: nat)
    requires UniqueKeys(acc) && j < |entries|
    ensures AddRemaining(acc, entries[..j + 1])
         == if entries[j].0 !in Keys(AddRemaining(acc, entries[..j]))
            then Put(AddRemaining(acc, entries[..j]), entries[j].0, entries[j].1)
            else AddRemaining(acc, entries[..j])
  {
    assert entries[..j + 1][..j] == entries[..j];
    assert entries[..j + 1][j] == entries[j];
  }

  // Reference definitions.

  /** The entries whose English name is not one of the tags `ps`, in their order. */
  function Others(entries: Dict<string, PosEntry>, ps: seq<string>): (r: Dict<string, PosEntry>)
  {
    if entries == [] then []
    else
      var e := entries[|entries| - 1];
      Others(entries[..|entries| - 1], ps) + if e.1.englishName !in ps then [e] else []
  }

  /** The entries whose key `acc` does not hold, in their order. */
  function Unclaimed(acc: Dict<string, PosEntry>, entries: Dict<string, PosEntry>): (r: Dict<string, PosEntry>)
  {
    if entries == [] then []
    else
      var e := entries[|entries| - 1];
      Unclaimed(acc, entries[..|entries| - 1]) + if e.0 !in Keys(acc) then [e] else []
  }

  /** Index of the first occurrence of `x` in `ps`, or `|ps|` if it does not occur. */
  function Position(ps: seq<string>, x: string): (r: nat)
    ensures r <= |ps|
    ensures r < |ps| ==> ps[r] == x
    ensures forall i :: 0 <= i < r && i < |ps| ==> ps[i] != x
  {
    if ps == [] then 0
    else if ps[0] == x then 0
    else
      assert forall i :: 1 <= i < |ps| ==> ps[i] == ps[1..][i - 1];
      1 + Position(ps[1..], x)
  }

  /** Every English name of `s` is one of `ps`, and they come in the order of `ps`. */
  predicate InOrderOf(s: Dict<string, PosEntry>, ps: seq<string>)
  {
    && (forall i :: 0 <= i < |s| ==> s[i].1.englishName in ps)
    && forall i, j :: 0 <= i < j < |s| ==> Position(ps, s[i].1.englishName) < Position(ps, s[j].1.englishName)
  }

  /**
   `sorted` is the entries whose English name is in `ps`, in the order of
   `ps`, followed by all the other entries in their original order.
   */
  ghost predicate StandardFirst(entries: Dict<string, PosEntry>, sorted: Dict<string, PosEntry>, ps: seq<string>)
  {
    && sorted == Front(entries, ps) + Others(entries, ps)
    && InOrderOf(Front(entries, ps), ps)
    && (forall x :: x in Front(entries, ps) <==> x in entries && x.1.englishName in ps)
    && (forall x :: x in Others(entries, ps) <==> x in entries && x.1.englishName !in ps)
  }

  lemma StandardTagsDistinct()
    ensures Distinct(POS_ORDER)
  {
  }

  // Proofs.

  /** The first position of an element found at `a` with no earlier occurrence is `a`. */
  lemma PositionIs(ps: seq<string>, x: string, a: nat)
    requires a < |ps| && ps[a] == x
    requires forall i :: 0 <= i < a ==> ps[i] != x
    ensures Position(ps, x) == a
  {
  }

  /** A turn of the first loop either keeps `sorted_pos` or adds the entry it finds. */
  lemma FrontGrows(entries: Dict<string, PosEntry>, ps: seq<string>, x: Entry)
    requires ps != [] && x in Front(entries, ps)
    ensures x in Front(entries, ps[..|ps| - 1])
         || (FirstNamed(entries, ps[|ps| - 1]).Some? && x == entries[FirstNamed(entries, ps[|ps| - 1]).value])
  {
  }

  /** The first loop only picks entries, and only ones whose English name is in `ps`. */
  lemma {:induction false} FrontMembers(entries: Dict<string, PosEntry>, ps: seq<string>)
    ensures forall x :: x in Front(entries, ps) ==> x in entries && x.1.englishName in ps
  {
    if ps != [] {
      var n := |ps| - 1;
      var qs := ps[..n];
      FrontMembers(entries, qs);
      forall x | x in Front(entries, ps) ensures x in entries && x.1.englishName in ps {
        FrontGrows(entries, ps, x);
        if x in Front(entries, qs) {
          var a :| 0 <= a < n && qs[a] == x.1.englishName;
          assert ps[a] == qs[a];
        } else {
          var i := FirstNamed(entries, ps[n]).value;
          assert entries[i] in entries;
        }
      }
    }
  }

  /** The entry a turn of the first loop finds has a key not taken by the earlier turns. */
  lemma FoundKeyIsNew(entries: Dict<string, PosEntry>, ps: seq<string>, i: nat)
    requires UniqueKeys(entries) && Distinct(ps) && ps != []
    requires FirstNamed(entries, ps[|ps| - 1]) == Some(i)
    ensures entries[i].0 !in Keys(Front(entries, ps[..|ps| - 1]))
  {
    var n := |ps| - 1;
    var qs := ps[..n];
    var prev := Front(entries, qs);
    var e := entries[i];
    FrontMembers(entries, qs);
    forall m | 0 <= m < |prev| ensures prev[m].0 != e.0 {
      assert prev[m] in prev;
      var a :| 0 <= a < n && qs[a] == prev[m].1.englishName;
      assert ps[a] != ps[n];
      var p :| 0 <= p < |entries| && entries[p] == prev[m];
      assert p != i && entries[p].0 != entries[i].0;
    }
  }

  /** Each turn of the first loop that finds an entry appends it. */
  lemma FrontStep(entries: Dict<string, PosEntry>, ps: seq<string>)
    requires UniqueKeys(entries) && Distinct(ps) && ps != []
    ensures Front(entries, ps)
         == match FirstNamed(entries, ps[|ps| - 1])
            case None => Front(entries, ps[..|ps| - 1])
            case Some(i) => Front(entries, ps[..|ps| - 1]) + [entries[i]]
  {
    match FirstNamed(entries, ps[|ps| - 1])
    case None =>
    case Some(i) =>
      FoundKeyIsNew(entries, ps, i);
      PutNew(Front(entries, ps[..|ps| - 1]), entries[i].0, entries[i].1);
  }

  /** Dropping the last of several distinct tags keeps the positions of the others. */
  lemma PositionsOfPrefix(ps: seq<string>)
    requires Distinct(ps) && ps != []
    ensures forall x :: x in ps[..|ps| - 1] ==> Position(ps, x) == Position(ps[..|ps| - 1], x) < |ps| - 1
    ensures Position(ps, ps[|ps| - 1]) == |ps| - 1
  {
    var n := |ps| - 1;
    var qs := ps[..n];
    forall x | x in qs ensures Position(ps, x) == Position(qs, x) < n {
      var a := Position(qs, x);
      assert forall i :: 0 <= i <= a ==> ps[i] == qs[i];
      PositionIs(ps, x, a);
    }
    PositionIs(ps, ps[n], n);
  }

  /** The entries the first loop picks come in the order of `ps`. */
  lemma {:induction false} FrontInOrder(entries: Dict<string, PosEntry>, ps: seq<string>)
    requires UniqueKeys(entries) && Distinct(ps)
    ensures InOrderOf(Front(entries, ps), ps)
  {
    FrontMembers(entries, ps);
    if ps != [] {
      var n := |ps| - 1;
      var qs := ps[..n];
      assert Distinct(qs);
      FrontInOrder(entries, qs);
      FrontInOrderStep(entries, ps);
    }
  }

  /** One more turn of the first loop keeps the picked entries in the order of the tags. */
  lemma FrontInOrderStep(entries: Dict<string, PosEntry>, ps: seq<string>)
    requires UniqueKeys(entries) && Distinct(ps) && ps != []
    requires InOrderOf(Front(entries, ps[..|ps| - 1]), ps[..|ps| - 1])
    ensures forall i, j :: 0 <= i < j < |Front(entries, ps)| ==>
      Position(ps, Front(entries, ps)[i].1.englishName) < Position(ps, Front(entries, ps)[j].1.englishName)
  {
    var n := |ps| - 1;
    var qs, p := ps[..n], ps[n];
    FrontStep(entries, ps);
    PositionsOfPrefix(ps);
    var prev := Front(entries, qs);
    var r := Front(entries, ps);
    assert |prev| <= |r| <= |prev| + 1;
    forall i, j | 0 <= i < j < |r|
      ensures Position(ps, r[i].1.englishName) < Position(ps, r[j].1.englishName)
    {
      var x := prev[i];
      assert r[i] == x;
      assert x.1.englishName in qs;
      assert Position(ps, x.1.englishName) == Position(qs, x.1.englishName) < n;
      if j < |prev| {
        var y := prev[j];
        assert r[j] == y && y.1.englishName in qs;
        assert Position(qs, x.1.englishName) < Position(qs, y.1.englishName);
      } else {
        assert r[j].1.englishName == p;
      }
    }
  }

  /** With unique English names, the first loop finds the entry of each name that occurs. */
  lemma FirstNamedFinds(entries: Dict<string, PosEntry>, k: nat)
    requires UniqueNames(entries) && k < |entries|
    ensures FirstNamed(entries, entries[k].1.englishName) == Some(k)
  {
  }

  /** When English names are unique, the first loop picks every entry whose name is in `ps`. */
  lemma {:induction false} FrontCovers(entries: Dict<string, PosEntry>, ps: seq<string>)
    requires UniqueKeys(entries) && UniqueNames(entries) && Distinct(ps)
    ensures forall x :: x in entries && x.1.englishName in ps ==> x in Front(entries, ps)
  {
    if ps != [] {
      var n := |ps| - 1;
      var qs, p := ps[..n], ps[n];
      assert Distinct(qs);
      FrontCovers(entries, qs);
      FrontStep(entries, ps);
      forall x | x in entries && x.1.englishName in ps ensures x in Front(entries, ps) {
        if x.1.englishName in qs {
          assert x in Front(entries, qs);
        } else {
          var a :| 0 <= a < |ps| && ps[a] == x.1.englishName;
          assert a == n by {
            assert forall b :: 0 <= b < n ==> ps[b] == qs[b];
          }
          var k :| 0 <= k < |entries| && entries[k] == x;
          FirstNamedFinds(entries, k);
        }
      }
    }
  }

  lemma {:induction false} UnclaimedMembers(acc: Dict<string, PosEntry>, entries: Dict<string, PosEntry>)
    ensures forall x :: x in Unclaimed(acc, entries) <==> x in entries && x.0 !in Keys(acc)
  {
    if entries != [] {
      var n := |entries| - 1;
      UnclaimedMembers(acc, entries[..n]);
      assert entries == entries[..n] + [entries[n]];
    }
  }

  /** The key of the last entry is not among those the earlier entries left unclaimed. */
  lemma UnclaimedFresh(acc: Dict<string, PosEntry>, entries: Dict<string, PosEntry>)
    requires UniqueKeys(entries) && entries != []
    ensures entries[|entries| - 1].0 !in Keys(Unclaimed(acc, entries[..|entries| - 1]))
  {
    var n := |entries| - 1;
    var prefix, e := entries[..n], entries[n];
    UnclaimedMembers(acc, prefix);
    var u := Unclaimed(acc, prefix);
    forall m | 0 <= m < |u| ensures u[m].0 != e.0 {
      var i :| 0 <= i < n && prefix[i] == u[m];
      assert entries[i] == prefix[i];
    }
  }

  /** The second loop appends, in order, exactly the entries whose key is not there yet. */
  lemma {:induction false} AddRemainingIsUnclaimed(acc: Dict<string, PosEntry>, entries: Dict<string, PosEntry>)
    requires UniqueKeys(acc) && UniqueKeys(entries)
    ensures AddRemaining(acc, entries) == acc + Unclaimed(acc, entries)
  {
    if entries != [] {
      var n := |entries| - 1;
      var prefix, e := entries[..n], entries[n];
      AddRemainingIsUnclaimed(acc, prefix);
      var u := Unclaimed(acc, prefix);
      UnclaimedFresh(acc, entries);
      KeyInAppend(acc, u, e.0);
      if e.0 !in Keys(acc) {
        PutNew(acc + u, e.0, e.1);
      }
    }
  }

  /** The reordered dict holds exactly the pairs it was given, each once: a permutation. */
  lemma ReorderIsPermutation(entries: Dict<string, PosEntry>)
    requires UniqueKeys(entries)
    ensures UniqueKeys(Reorder(entries))
    ensures multiset(Reorder(entries)) == multiset(entries)
  {
    var front := Front(entries, POS_ORDER);
    var r := Reorder(entries);
    FrontMembers(entries, POS_ORDER);
    AddRemainingIsUnclaimed(front, entries);
    UnclaimedMembers(front, entries);
    assert r == front + Unclaimed(front, entries);
    forall x ensures x in r <==> x in entries {
      if x in entries && x.0 in Keys(front) {
        var m :| 0 <= m < |front| && front[m].0 == x.0;
        SameKeySamePair(entries, front[m], x);
      }
    }
    UniqueKeysDistinct(r);
    UniqueKeysDistinct(entries);
    forall x ensures multiset(r)[x] == multiset(entries)[x] {
      DistinctMultiplicity(r, x);
      DistinctMultiplicity(entries, x);
    }
  }

  lemma {:induction false} OthersMembers(entries: Dict<string, PosEntry>, ps: seq<string>)
    ensures forall x :: x in Others(entries, ps) <==> x in entries && x.1.englishName !in ps
  {
    if entries != [] {
      var n := |entries| - 1;
      OthersMembers(entries[..n], ps);
      assert entries == entries[..n] + [entries[n]];
    }
  }

  /** Two filters that agree entry by entry select the same entries. */
  lemma {:induction false} UnclaimedAreOthers(acc: Dict<string, PosEntry>, entries: Dict<string, PosEntry>, ps: seq<string>)
    requires forall i :: 0 <= i < |entries| ==> (entries[i].0 in Keys(acc) <==> entries[i].1.englishName in ps)
    ensures Unclaimed(acc, entries) == Others(entries, ps)
  {
    if entries != [] {
      var n := |entries| - 1;
      assert forall i :: 0 <= i < n ==> entries[..n][i] == entries[i];
      UnclaimedAreOthers(acc, entries[..n], ps);
    }
  }

  /** An entry's key is taken by the first loop exactly when its English name is one of `ps`. */
  lemma ClaimedIffNamed(entries: Dict<string, PosEntry>, ps: seq<string>)
    requires UniqueKeys(entries) && UniqueNames(entries) && Distinct(ps)
    ensures forall i :: 0 <= i < |entries| ==>
      (entries[i].0 in Keys(Front(entries, ps)) <==> entries[i].1.englishName in ps)
  {
    var front := Front(entries, ps);
    FrontMembers(entries, ps);
    FrontCovers(entries, ps);
    forall i | 0 <= i < |entries|
      ensures entries[i].0 in Keys(front) <==> entries[i].1.englishName in ps
    {
      var x := entries[i];
      if x.0 in Keys(front) {
        var m :| 0 <= m < |front| && front[m].0 == x.0;
        SameKeySamePair(entries, front[m], x);
      }
      if x.1.englishName in ps {
        assert x in front;
        var m :| 0 <= m < |front| && front[m] == x;
        assert Keys(front)[m] == x.0;
      }
    }
  }

  /** The layout of the reordering for any list `ps` of distinct tags. */
  lemma LayoutFor(entries: Dict<string, PosEntry>, ps: seq<string>)
    requires UniqueKeys(entries) && UniqueNames(entries) && Distinct(ps)
    ensures StandardFirst(entries, AddRemaining(Front(entries, ps), entries), ps)
  {
    var front := Front(entries, ps);
    FrontInOrder(entries, ps);
    OthersMembers(entries, ps);
    FrontMembers(entries, ps);
    FrontCovers(entries, ps);
    AddRemainingIsUnclaimed(front, entries);
    ClaimedIffNamed(entries, ps);
    UnclaimedAreOthers(front, entries, ps);
  }

  /**
   With unique keys and English names, the reordered dict is the standard
   entries, in `pos_order` order, followed by all other entries in their
   original order.
   */
  lemma ReorderLayout(entries: Dict<string, PosEntry>)
    requires UniqueKeys(entries) && UniqueNames(entries)
    ensures StandardFirst(entries, Reorder(entries), POS_ORDER)
  {
    StandardTagsDistinct();
    LayoutFor(entries, POS_ORDER);
  }

  /** What the method promises besides computing `Reorder`. */
  lemma ReorderProperties(entries: Dict<string, PosEntry>, sorted: Dict<string, PosEntry>)
    requires sorted == Reorder(entries)
    ensures UniqueKeys(entries) ==> UniqueKeys(sorted) && multiset(sorted) == multiset(entries)
    ensures UniqueKeys(entries) && UniqueNames(entries) ==> StandardFirst(entries, sorted, POS_ORDER)
  {
    if UniqueKeys(entries) {
      ReorderIsPermutation(entries);
      if UniqueNames(entries) {
        ReorderLayout(entries);
      }
    }
  }
}
