/**
 The string operations the script relies on: Python's ordering of `str`
 values (lexicographic by code point), `sorted()` applied to a set of
 strings, and `str.title()`.
 */
module Text {

  /** `a <= b` on Python strings. */
  predicate AtMost(a: string, b: string)
  {
    a == [] || (b != [] && (a[0] < b[0] || (a[0] == b[0] && AtMost(a[1..], b[1..]))))
  }

  /** `a < b` on Python strings. */
  predicate Before(a: string, b: string)
  {
    AtMost(a, b) && a != b
  }

  /** Every two strings are comparable. */
  lemma {:induction false} AtMostTotal(a: string, b: string)
    ensures AtMost(a, b) || AtMost(b, a)
  {
    if a != [] && b != [] && a[0] == b[0] {
      AtMostTotal(a[1..], b[1..]);
    }
  }

  lemma {:induction false} AtMostAntisymmetric(a: string, b: string)
    requires AtMost(a, b) && AtMost(b, a)
    ensures a == b
  {
    if a != [] && b != [] {
      AtMostAntisymmetric(a[1..], b[1..]);
      assert a == [a[0]] + a[1..] && b == [b[0]] + b[1..];
    }
  }

  lemma {:induction false} AtMostTransitive(a: string, b: string, c: string)
    requires AtMost(a, b) && AtMost(b, c)
    ensures AtMost(a, c)
  {
    if a != [] && a[0] == b[0] && b[0] == c[0] {
      AtMostTransitive(a[1..], b[1..], c[1..]);
    }
  }

  /** `m` is at most every element of `s`. */
  predicate IsLeast(m: string, s: set<string>)
  {
    forall x :: x in s ==> AtMost(m, x)
  }

  /** A finite non-empty set of strings has a least element. */
  lemma {:induction false} HasLeast(s: set<string>)
    requires s != {}
    ensures exists m :: m in s && IsLeast(m, s)
    decreases |s|
  {
    var y :| y in s;
    if s == {y} {
      AtMostTotal(y, y);
      assert IsLeast(y, s);
    } else {
      var t := s - {y};
      HasLeast(t);
      var m :| m in t && IsLeast(m, t);
      AtMostTotal(m, y);
      if AtMost(m, y) {
        assert IsLeast(m, s);
      } else {
        forall x | x in s ensures AtMost(y, x) {
          if x == y {
            AtMostTotal(y, y);
          } else {
            assert x in t;
            AtMostTransitive(y, m, x);
          }
        }
        assert IsLeast(y, s);
      }
    }
  }

  /** The least element of a set is unique. */
  lemma LeastUnique(s: set<string>)
    ensures forall a, b :: a in s && b in s && IsLeast(a, s) && IsLeast(b, s) ==> a == b
  {
    forall a, b | a in s && b in s && IsLeast(a, s) && IsLeast(b, s) ensures a == b {
      AtMostAntisymmetric(a, b);
    }
  }

  /** Strictly ascending: `Before` holds between every earlier and later element. */
  predicate Ascending(r: seq<string>)
  {
    forall i, j :: 0 <= i < j < |r| ==> Before(r[i], r[j])
  }

  /** Putting the least element in front of the sorted rest sorts the whole set. */
  lemma SortedCons(s: set<string>, m: string, rest: seq<string>)
    requires m in s && IsLeast(m, s)
    requires Ascending(rest) && |rest| == |s - {m}|
    requires forall x :: x in rest <==> x in s - {m}
    ensures Ascending([m] + rest)
    ensures forall x :: x in [m] + rest <==> x in s
    ensures |[m] + rest| == |s|
  {
    var r := [m] + rest;
    forall i, j | 0 <= i < j < |r| ensures Before(r[i], r[j]) {
      assert r[j] == rest[j - 1] && r[j] in s - {m};
      if i > 0 {
        assert r[i] == rest[i - 1];
      }
    }
  }

  /** `sorted(s)` for a set of strings: its elements in ascending order, each once. */
  function Sorted(s: set<string>): (r: seq<string>)
    ensures Ascending(r)
    ensures forall x :: x in r <==> x in s
    ensures |r| == |s|
    decreases |s|
  {
    if s == {} then []
    else
      HasLeast(s);
      LeastUnique(s);
      var m :| m in s && IsLeast(m, s);
      var rest := Sorted(s - {m});
      SortedCons(s, m, rest);
      [m] + rest
  }

  predicate IsUpper(c: char) { 'A' <= c <= 'Z' }

  predicate IsLower(c: char) { 'a' <= c <= 'z' }

  /** The characters with an upper and a lower case (ASCII letters only, here). */
  predicate IsCased(c: char) { IsUpper(c) || IsLower(c) }

  function ToUpper(c: char): char
  {
    if IsLower(c) then (c as int - 32) as char else c
  }

  function ToLower(c: char): char
  {
    if IsUpper(c) then (c as int + 32) as char else c
  }

  /**
   `s.title()` applied to the rest of a string, `afterCased` telling whether the
   character just before it was cased.
   */
  function TitleFrom(s: string, afterCased: bool): (r: string)
    ensures |r| == |s|
    ensures forall i :: 0 <= i < |s| ==> IsCased(r[i]) == IsCased(s[i])
    ensures forall i :: 0 <= i < |s| ==> ToLower(r[i]) == ToLower(s[i])
    ensures forall i :: 0 <= i < |s| && IsCased(s[i]) ==>
      (IsUpper(r[i]) <==> if i == 0 then !afterCased else !IsCased(s[i - 1]))
    ensures forall i :: 0 <= i < |s| && !IsCased(s[i]) ==> r[i] == s[i]
  {
    if s == [] then []
    else
      var c := if afterCased then ToLower(s[0]) else ToUpper(s[0]);
      var rest := TitleFrom(s[1..], IsCased(s[0]));
      assert forall i :: 1 <= i < |s| ==> s[i] == s[1..][i - 1];
      [c] + rest
  }

  /**
   `s.title()`: a cased character is upper case exactly when the character
   before it is not cased; every other character is left alone.
   */
  function Title(s: string): (r: string)
    ensures |r| == |s|
    ensures forall i :: 0 <= i < |s| ==> IsCased(r[i]) == IsCased(s[i])
    ensures forall i :: 0 <= i < |s| ==> ToLower(r[i]) == ToLower(s[i])
    ensures forall i :: 0 <= i < |s| && IsCased(s[i]) ==>
      (IsUpper(r[i]) <==> i == 0 || !IsCased(s[i - 1]))
    ensures forall i :: 0 <= i < |s| && !IsCased(s[i]) ==> r[i] == s[i]
  {
    TitleFrom(s, false)
  }
}
