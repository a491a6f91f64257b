/** Assignments, letter patterns and word matching shared by both searches.

    A puzzle is a row of slots; an assignment gives each slot a letter or
    leaves it unassigned (Java's `null`). A category lists the slots of one
    word in reading order, and the pattern of a category is what the solvers
    hand to the regular-expression engine: the assigned letter, or '.' for an
    unassigned slot. */
module Csp {

  datatype Option<T> = None | Some(value: T)

  /** One entry per slot; `None` is an unassigned slot. */
  type Assignment = seq<Option<char>>

  /** The character written for an unassigned slot; the regular-expression
      engine reads it as "any one character". */
  const Wildcard: char := '.'

  predicate Complete(a: Assignment) {
    forall j :: 0 <= j < |a| ==> a[j].Some?
  }

  /** No assigned letter is the wildcard character. */
  predicate NoWildcard(a: Assignment) {
    forall j :: 0 <= j < |a| ==> a[j] != Some(Wildcard)
  }

  predicate PlainWord(w: string) {
    forall k :: 0 <= k < |w| ==> w[k] != Wildcard
  }

  /** Every listed slot is a slot of an assignment of length n. */
  predicate InRange(indices: seq<int>, n: int) {
    forall k :: 0 <= k < |indices| ==> 0 <= indices[k] < n
  }

  /** Some slot of the category is still unassigned in a. */
  ghost predicate HasEmptySlot(indices: seq<int>, a: Assignment) {
    exists k :: 0 <= k < |indices| && 0 <= indices[k] < |a| && a[indices[k]].None?
  }

  /** The number of unassigned slots. */
  function NullCount(a: Assignment): (count: nat)
    ensures count <= |a|
    ensures count == 0 <==> Complete(a)
  {
    if |a| == 0 then 0
    else
      var rest := NullCount(a[1..]);
      assert Complete(a) <==> a[0].Some? && Complete(a[1..]) by {
        if a[0].Some? && Complete(a[1..]) {
          forall j | 0 <= j < |a| ensures a[j].Some? {
            if j > 0 { assert a[j] == a[1..][j - 1]; }
          }
        }
      }
      (if a[0].None? then 1 else 0) + rest
  }

  /** Assigning slots, and never unassigning one, does not raise the count. */
  lemma {:induction false} NullCountMonotone(a: Assignment, b: Assignment)
    requires |a| == |b|
    requires forall j :: 0 <= j < |a| && a[j].Some? ==> b[j].Some?
    ensures NullCount(b) <= NullCount(a)
  {
    if |a| > 0 {
      NullCountMonotone(a[1..], b[1..]);
    }
  }

  /** Assigning at least one more slot lowers the count strictly. */
  lemma {:induction false} NullCountDecreases(a: Assignment, b: Assignment, i: int)
    requires |a| == |b| && 0 <= i < |a|
    requires forall j :: 0 <= j < |a| && a[j].Some? ==> b[j].Some?
    requires a[i].None? && b[i].Some?
    ensures NullCount(b) < NullCount(a)
  {
    if i == 0 {
      NullCountMonotone(a[1..], b[1..]);
    } else {
      NullCountDecreases(a[1..], b[1..], i - 1);
    }
  }

  /** The lowest unassigned slot, or -1 when every slot is assigned. */
  function FirstEmpty(a: Assignment): (i: int)
    ensures -1 <= i < |a|
    ensures i == -1 <==> Complete(a)
    ensures 0 <= i ==> a[i].None? && forall j :: 0 <= j < i ==> a[j].Some?
  {
    if |a| == 0 then -1
    else if a[0].None? then 0
    else
      var r := FirstEmpty(a[1..]);
      if r == -1 then
        assert forall j :: 1 <= j < |a| ==> a[j] == a[1..][j - 1];
        -1
      else
        assert forall j :: 1 <= j <= r + 1 ==> a[j] == a[1..][j - 1];
        r + 1
  }

  /** The pattern of a category: in the category's slot order, the assigned
      letter of each slot, or the wildcard when the slot is unassigned. */
  function Pattern(indices: seq<int>, a: Assignment): (p: string)
    requires InRange(indices, |a|)
    ensures |p| == |indices|
    ensures forall k :: 0 <= k < |indices| ==>
              p[k] == (if a[indices[k]].None? then Wildcard else a[indices[k]].value)
  {
    if |indices| == 0 then ""
    else
      var n := |indices| - 1;
      var slot := a[indices[n]];
      Pattern(indices[..n], a) + [if slot.None? then Wildcard else slot.value]
  }

  /** The word a complete assignment spells along a category's slots. */
  function Word(indices: seq<int>, a: Assignment): (w: string)
    requires InRange(indices, |a|)
    requires forall k :: 0 <= k < |indices| ==> a[indices[k]].Some?
    ensures |w| == |indices|
    ensures forall k :: 0 <= k < |indices| ==> w[k] == a[indices[k]].value
  {
    if |indices| == 0 then ""
    else
      var n := |indices| - 1;
      Word(indices[..n], a) + [a[indices[n]].value]
  }

  /** A pattern matches a word of the same length whose every letter equals
      the pattern's letter or stands under a wildcard. */
  predicate Matches(pattern: string, word: string) {
    |pattern| == |word| &&
    forall k :: 0 <= k < |pattern| ==> pattern[k] == Wildcard || pattern[k] == word[k]
  }

  ghost predicate HasMatch(pattern: string, words: seq<string>) {
    exists j :: 0 <= j < |words| && Matches(pattern, words[j])
  }

  /** Category c is known, listed in the word map, and some word of its list
      still fits its pattern in a. */
  ghost predicate Fits(cim: map<string, seq<int>>, db: map<string, seq<string>>, c: string, a: Assignment) {
    c in cim && c in db && InRange(cim[c], |a|) && HasMatch(Pattern(cim[c], a), db[c])
  }

  /** In the complete assignment r, category c spells a word of its list. */
  ghost predicate Spells(cim: map<string, seq<int>>, db: map<string, seq<string>>, c: string, r: Assignment) {
    c in cim && c in db && InRange(cim[c], |r|) && Complete(r) && Word(cim[c], r) in db[c]
  }

  /** Two assignments that agree on a category's slots give it the same pattern. */
  lemma PatternAgrees(indices: seq<int>, a: Assignment, b: Assignment)
    requires InRange(indices, |a|) && |a| == |b|
    requires forall k :: 0 <= k < |indices| ==> a[indices[k]] == b[indices[k]]
    ensures Pattern(indices, a) == Pattern(indices, b)
  {
  }

  /** Once all of a category's slots hold letters other than the wildcard, its
      pattern fits a word exactly when the word it spells is in the list. */
  lemma FullPatternMatch(indices: seq<int>, a: Assignment, words: seq<string>)
    requires InRange(indices, |a|)
    requires forall k :: 0 <= k < |indices| ==> a[indices[k]].Some? && a[indices[k]].value != Wildcard
    ensures HasMatch(Pattern(indices, a), words) <==> Word(indices, a) in words
  {
    var p := Pattern(indices, a);
    assert p == Word(indices, a);
    if HasMatch(p, words) {
      var j :| 0 <= j < |words| && Matches(p, words[j]);
      assert p == words[j];
    }
    if p in words {
      var j :| 0 <= j < |words| && words[j] == p;
      assert Matches(p, words[j]);
    }
  }

  /** a agrees with r on every slot a has assigned. */
  ghost predicate Agrees(a: Assignment, r: Assignment) {
    |a| == |r| && forall j :: 0 <= j < |a| && a[j].Some? ==> r[j] == a[j]
  }

  /** A partial assignment that agrees with a complete one gives each category
      a pattern that matches the word the complete one spells there. */
  lemma PatternMatchesWord(indices: seq<int>, a: Assignment, r: Assignment)
    requires InRange(indices, |a|) && Agrees(a, r) && Complete(r)
    ensures Matches(Pattern(indices, a), Word(indices, r))
  {
    var p := Pattern(indices, a);
    var w := Word(indices, r);
    forall k | 0 <= k < |p|
      ensures p[k] == Wildcard || p[k] == w[k]
    {
      if a[indices[k]].Some? {
        assert r[indices[k]] == a[indices[k]];
      }
    }
  }

  /** Something already in the part of xs from index `from` on is still there
      once xs is extended. */
  lemma KeptInSuffix<T>(xs: seq<T>, ys: seq<T>, from: int, x: T)
    requires 0 <= from <= |xs| && xs <= ys && x in xs[from..]
    ensures x in ys[from..]
  {
    var m :| 0 <= m < |xs[from..]| && xs[from..][m] == x;
    assert ys[from..][m] == x;
  }

  /** Something in the part of xs from index mid on is also in the part from
      any earlier index on. */
  lemma SuffixWithin<T>(xs: seq<T>, from: int, mid: int, x: T)
    requires 0 <= from <= mid <= |xs| && x in xs[mid..]
    ensures x in xs[from..]
  {
    var m :| 0 <= m < |xs[mid..]| && xs[mid..][m] == x;
    assert xs[from..][mid - from + m] == x;
  }

  /** No element occurs twice. */
  predicate Distinct<T(==)>(xs: seq<T>) {
    forall j, k :: 0 <= j < k < |xs| ==> xs[j] != xs[k]
  }

  /** Two distinct runs of results, no element of the first equal to one of
      the second, make one distinct run. */
  lemma DistinctJoin<T>(xs: seq<T>, from: int, mid: int)
    requires 0 <= from <= mid <= |xs|
    requires Distinct(xs[from..mid]) && Distinct(xs[mid..])
    requires forall j, k :: from <= j < mid <= k < |xs| ==> xs[j] != xs[k]
    ensures Distinct(xs[from..])
  {
    forall j, k | 0 <= j < k < |xs| - from
      ensures xs[from..][j] != xs[from..][k]
    {
      if from + k < mid {
        assert xs[from..mid][j] == xs[from + j] && xs[from..mid][k] == xs[from + k];
      } else if mid <= from + j {
        assert xs[mid..][from + j - mid] == xs[from + j] && xs[mid..][from + k - mid] == xs[from + k];
      }
    }
  }

  /** A distinct run is no longer than any set that holds all its elements. */
  lemma {:induction false} DistinctWithin<T>(xs: seq<T>, s: set<T>)
    requires Distinct(xs) && forall j :: 0 <= j < |xs| ==> xs[j] in s
    ensures |xs| <= |s|
  {
    if |xs| > 0 {
      var n := |xs| - 1;
      assert forall j :: 0 <= j < n ==> xs[..n][j] == xs[j] && xs[j] != xs[n];
      DistinctWithin(xs[..n], s - {xs[n]});
    }
  }

  /** A distinct run that holds a and b, and nothing else, has length two. */
  lemma TwoDistinct<T>(xs: seq<T>, a: T, b: T)
    requires Distinct(xs) && a != b && a in xs && b in xs
    requires forall j :: 0 <= j < |xs| ==> xs[j] == a || xs[j] == b
    ensures |xs| == 2
  {
    var i :| 0 <= i < |xs| && xs[i] == a;
    var j :| 0 <= j < |xs| && xs[j] == b;
    assert i != j;
    DistinctWithin(xs, {a, b});
  }

  /** On a board of three slots read in order, the word spelled determines
      the board. */
  lemma ThreeSlotBoard(s: Assignment, w: string)
    requires |s| == 3 && Complete(s) && Word([0, 1, 2], s) == w
    ensures s == [Some(w[0]), Some(w[1]), Some(w[2])]
  {
    assert s[0] == Some(w[0]) && s[1] == Some(w[1]) && s[2] == Some(w[2]);
  }

  /** The assignment after writing word's letters into the category's slots
      in order, so that a slot listed twice keeps the later letter. */
  function Written(a: Assignment, indices: seq<int>, word: string): (r: Assignment)
    requires InRange(indices, |a|) && |word| >= |indices|
    ensures |r| == |a|
  {
    if |indices| == 0 then a
    else
      var n := |indices| - 1;
      assert InRange(indices[..n], |a|);
      Written(a, indices[..n], word)[indices[n] := Some(word[n])]
  }

  /** Writing a word changes no slot outside the category, clears no
      assigned slot, and brings in no '.' when the word has none. */
  lemma {:induction false} WrittenFrame(a: Assignment, indices: seq<int>, word: string)
    requires InRange(indices, |a|) && |word| >= |indices|
    ensures forall j :: 0 <= j < |a| && j !in indices ==> Written(a, indices, word)[j] == a[j]
    ensures forall j :: 0 <= j < |a| && a[j].Some? ==> Written(a, indices, word)[j].Some?
    ensures NoWildcard(a) && PlainWord(word) ==> NoWildcard(Written(a, indices, word))
  {
    if |indices| > 0 {
      var n := |indices| - 1;
      WrittenFrame(a, indices[..n], word);
      forall j | 0 <= j < |a| && j in indices[..n]
        ensures j in indices
      {
        var k :| 0 <= k < n && indices[..n][k] == j;
        assert indices[k] == j;
      }
    }
  }

  /** Writing a word leaves every slot of the category assigned, and a slot
      holds the letter of its last listing. */
  lemma {:induction false} WrittenListed(a: Assignment, indices: seq<int>, word: string)
    requires InRange(indices, |a|) && |word| >= |indices|
    ensures forall k :: 0 <= k < |indices| ==> Written(a, indices, word)[indices[k]].Some?
    ensures forall k :: 0 <= k < |indices| && (forall m :: k < m < |indices| ==> indices[m] != indices[k]) ==>
              Written(a, indices, word)[indices[k]] == Some(word[k])
  {
    if |indices| > 0 {
      var n := |indices| - 1;
      WrittenListed(a, indices[..n], word);
      assert forall k :: 0 <= k < n ==> indices[..n][k] == indices[k];
    }
  }

  /** Writing, into an assignment that agrees with the complete assignment r,
      a word whose letters are r's letters along the category keeps it in
      agreement with r. */
  lemma {:induction false} WrittenAgrees(a: Assignment, indices: seq<int>, word: string, r: Assignment)
    requires InRange(indices, |a|) && |word| >= |indices| && Agrees(a, r) && Complete(r)
    requires forall k :: 0 <= k < |indices| ==> word[k] == r[indices[k]].value
    ensures Agrees(Written(a, indices, word), r)
  {
    if |indices| > 0 {
      var n := |indices| - 1;
      WrittenAgrees(a, indices[..n], word, r);
    }
  }
}
