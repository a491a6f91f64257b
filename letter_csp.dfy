/** Letter-based backtracking: the variable is one slot, its domain the
    letters 'A'..'Z'. A letter is written into the shared assignment, the
    categories through that slot are checked, and the slot is cleared again
    before the next letter is tried. */
module LetterSearch {
  import opened Csp
  import opened Puzzles

  ghost predicate IsCapital(ch: char) {
    'A' <= ch <= 'Z'
  }

  /** A solution of a whole board of n slots: every slot holds a capital
      letter, and every category with at least one slot spells a word of its
      list. */
  ghost predicate CapitalSolution(cim: map<string, seq<int>>, db: map<string, seq<string>>, n: int, s: Assignment) {
    && |s| == n && Complete(s)
    && (forall j :: 0 <= j < n ==> IsCapital(s[j].value))
    && (forall c :: c in cim && |cim[c]| > 0 ==> Spells(cim, db, c, s))
  }

  /** The 26 capital letters 'A'..'Z', in ascending order. */
  ghost predicate UppercaseAlphabet(s: seq<char>) {
    |s| == 26 && forall i :: 0 <= i < 26 ==> s[i] == ('A' as int + i) as char
  }

  class LetterBasedCSP {
    const categoryIndexMap: map<string, seq<int>>
    const indexCategoryMap: map<int, seq<string>>
    const wordMap: map<string, seq<string>>
    /** Every complete assignment found, in the order found. */
    var results: seq<Assignment>
    var alphabet: seq<char>

    constructor (puzzle: Puzzle, db: map<string, seq<string>>)
      ensures categoryIndexMap == puzzle.categoryIndexMap
      ensures indexCategoryMap == puzzle.indexCategoryMap
      ensures wordMap == db
      ensures results == [] && UppercaseAlphabet(alphabet)
    {
      categoryIndexMap := puzzle.categoryIndexMap;
      indexCategoryMap := puzzle.indexCategoryMap;
      wordMap := db;
      results := [];
      alphabet := [];
      new;
      DefineAlphabet();
    }

    /** The inputs a search over n slots relies on. */
    ghost predicate WellFormed(n: int) {
      SolverInputs(categoryIndexMap, indexCategoryMap, wordMap, n)
    }

    /** The boards a search from the entry assignment a0 lists: complete,
        keeping a0's letters, a capital letter in every slot a0 leaves empty,
        and a word of its list spelled by every category that has an empty
        slot in a0. */
    ghost predicate Solves(r: Assignment, a0: Assignment) {
      && Agrees(a0, r) && Complete(r)
      && (forall j :: 0 <= j < |a0| && a0[j].None? ==> IsCapital(r[j].value))
      && (forall c :: c in categoryIndexMap && HasEmptySlot(categoryIndexMap[c], a0) ==>
            Spells(categoryIndexMap, wordMap, c, r))
    }

    method DefineAlphabet()
      modifies this`alphabet
      ensures UppercaseAlphabet(alphabet)
    {
      alphabet := [];
      var firstChar := 'A';
      for i := 0 to 26
        invariant |alphabet| == i
        invariant forall k :: 0 <= k < i ==> alphabet[k] == ('A' as int + k) as char
      {
        alphabet := alphabet + [(firstChar as int + i) as char];
      }
    }

    /** The lowest unassigned slot, or -1 when there is none. */
    method SelectUnassignedVariable(assignment: array<Option<char>>) returns (index: int)
      ensures index == FirstEmpty(assignment[..])
    {
      for i := 0 to assignment.Length
        invariant forall j :: 0 <= j < i ==> assignment[j].Some?
      {
        if assignment[i].None? {
          return i;
        }
      }
      return -1;
    }

    method GetWordRegEx(category: string, assignment: array<Option<char>>) returns (partialWord: string)
      requires category in categoryIndexMap && InRange(categoryIndexMap[category], assignment.Length)
      ensures partialWord == Pattern(categoryIndexMap[category], assignment[..])
    {
      partialWord := "";
      var indices := categoryIndexMap[category];
      for k := 0 to |indices|
        invariant partialWord == Pattern(indices[..k], assignment[..])
      {
        var index := indices[k];
        assert indices[..k + 1][..k] == indices[..k];
        if assignment[index].None? {
          partialWord := partialWord + [Wildcard];
        } else {
          partialWord := partialWord + [assignment[index].value];
        }
      }
      assert indices[..|indices|] == indices;
    }

    /** True exactly when every category through slot index still fits a word
        of its list; true for a slot that no category uses. */
    method CheckIfConsistent(index: int, assignment: array<Option<char>>) returns (consistent: bool)
      requires WellFormed(assignment.Length) && 0 <= index < assignment.Length
      ensures consistent <==> forall k :: 0 <= k < |indexCategoryMap[index]| ==>
                Fits(categoryIndexMap, wordMap, indexCategoryMap[index][k], assignment[..])
    {
      var categories := indexCategoryMap[index];
      for i := 0 to |categories|
        invariant forall k :: 0 <= k < i ==> Fits(categoryIndexMap, wordMap, categories[k], assignment[..])
      {
        var category := categories[i];
        TransposeMembership(categoryIndexMap, indexCategoryMap, assignment.Length, index, category);
        var partialWord := GetWordRegEx(category, assignment);
        var wordExistsInCategory := false;
        var words := wordMap[category];
        for j := 0 to |words|
          invariant !wordExistsInCategory ==> forall m :: 0 <= m < j ==> !Matches(partialWord, words[m])
          invariant wordExistsInCategory ==> HasMatch(partialWord, words)
        {
          if Matches(partialWord, words[j]) {
            wordExistsInCategory := true;
            break;
          }
        }
        if !wordExistsInCategory {
          return false;
        }
      }
      return true;
    }

    /** A copy of a complete assignment; as a value, later changes to the
        array cannot reach it. */
    method DeepCopyCharArrayList(inputArray: array<Option<char>>) returns (copy: Assignment)
      requires Complete(inputArray[..])
      ensures copy == inputArray[..]
    {
      copy := [];
      for i := 0 to inputArray.Length
        invariant copy == inputArray[..i]
      {
        copy := copy + [inputArray[i]];
      }
    }

    /** Searches every letter for the lowest unassigned slot, appends each
        complete consistent assignment to results, and leaves the assignment as
        it found it. The new results are exactly the boards that solve the
        entry assignment. */
    method RecursiveBacktracking(assignment: array<Option<char>>)
      requires WellFormed(assignment.Length)
      requires UppercaseAlphabet(alphabet)
      requires NoWildcard(assignment[..])
      requires !Complete(assignment[..])
      modifies this`results, assignment
      ensures assignment[..] == old(assignment[..])
      ensures old(results) <= results
      ensures forall j :: |old(results)| <= j < |results| ==> Solves(results[j], old(assignment[..]))
      ensures forall r :: Solves(r, old(assignment[..])) ==> r in results[|old(results)|..]
      ensures Distinct(results[|old(results)|..])
      decreases NullCount(assignment[..]), 1
    {
      var index := SelectUnassignedVariable(assignment);
      ghost var a0 := assignment[..];
      ghost var r0 := results;
      var domain := alphabet;
      for i := 0 to |domain|
        invariant assignment[..] == a0
        invariant r0 <= results
        invariant forall j :: |r0| <= j < |results| ==> Solves(results[j], a0)
        invariant forall r: Assignment :: Solves(r, a0) && r[index].value as int < 'A' as int + i ==> r in results[|r0|..]
        invariant forall j :: |r0| <= j < |results| ==>
                    0 <= index < |results[j]| && results[j][index].Some? && results[j][index].value as int < 'A' as int + i
        invariant Distinct(results[|r0|..])
      {
        var c := domain[i];
        assert c as int == 'A' as int + i;
        ghost var rMid := results;
        TryLetter(assignment, index, c);
        forall r: Assignment | Solves(r, a0) && r[index].value as int < 'A' as int + i + 1
          ensures r in results[|r0|..]
        {
          if r[index].value as int < 'A' as int + i {
            KeptInSuffix(rMid, results, |r0|, r);
          } else {
            SuffixWithin(results, |r0|, |rMid|, r);
          }
        }
        forall j | |r0| <= j < |results|
          ensures Solves(results[j], a0)
          ensures 0 <= index < |results[j]| && results[j][index].Some? && results[j][index].value as int < 'A' as int + i + 1
        {
          if j < |rMid| {
            assert results[j] == rMid[j];
          }
        }
        assert results[|r0|..|rMid|] == rMid[|r0|..];
        DistinctJoin(results, |r0|, |rMid|);
      }
    }

    /** One pass of the search loop: places the capital c in the empty slot
        index, stores the board when it is consistent and complete or searches
        on when it is consistent but incomplete, and clears the slot again.
        The new results are exactly the boards that solve the entry assignment
        and hold c at index. */
    method TryLetter(assignment: array<Option<char>>, index: int, c: char)
      requires WellFormed(assignment.Length) && UppercaseAlphabet(alphabet)
      requires NoWildcard(assignment[..])
      requires 0 <= index < assignment.Length && assignment[index].None? && IsCapital(c)
      modifies this`results, assignment
      ensures assignment[..] == old(assignment[..])
      ensures old(results) <= results
      ensures forall j :: |old(results)| <= j < |results| ==> Solves(results[j], old(assignment[..]))
      ensures forall r :: Solves(r, old(assignment[..])) && r[index] == Some(c) ==> r in results[|old(results)|..]
      ensures forall j :: |old(results)| <= j < |results| ==> index < |results[j]| && results[j][index] == Some(c)
      ensures Distinct(results[|old(results)|..])
      decreases NullCount(assignment[..]), 0
    {
      ghost var a0 := assignment[..];
      ghost var r0 := results;
      assignment[index] := Some(c);
      ghost var a1 := assignment[..];
      assert a1 == a0[index := Some(c)];
      FindStep(a0, index, c);
      var consistent := CheckIfConsistent(index, assignment);
      if consistent {
        if Complete(assignment[..]) {
          var copy := DeepCopyCharArrayList(assignment);
          results := results + [copy];
          SolvesStep(copy, a0, index, c);
          assert results[|r0|..] == [copy];
        } else {
          NullCountDecreases(a0, a1, index);
          RecursiveBacktracking(assignment);
          forall j | |r0| <= j < |results|
            ensures Solves(results[j], a0) && results[j][index] == Some(c)
          {
            SolvesStep(results[j], a0, index, c);
          }
        }
      }
      assignment[index] := None;
      assert assignment[..] == a0;
    }

    /** Soundness step: a result found after the capital ch was placed in the
        empty slot index, and the categories through index were checked, also
        solves the assignment before the placement. */
    lemma SolvesStep(r: Assignment, a0: Assignment, index: int, ch: char)
      requires WellFormed(|a0|) && 0 <= index < |a0| && a0[index].None?
      requires IsCapital(ch) && NoWildcard(a0)
      requires forall k :: 0 <= k < |indexCategoryMap[index]| ==>
                 Fits(categoryIndexMap, wordMap, indexCategoryMap[index][k], a0[index := Some(ch)])
      requires Solves(r, a0[index := Some(ch)]) || (r == a0[index := Some(ch)] && Complete(r))
      ensures Solves(r, a0)
    {
      var a1 := a0[index := Some(ch)];
      assert Agrees(a1, r);
      forall c | c in categoryIndexMap && HasEmptySlot(categoryIndexMap[c], a0)
        ensures Spells(categoryIndexMap, wordMap, c, r)
      {
        var indices := categoryIndexMap[c];
        if HasEmptySlot(indices, a1) {
          assert !Complete(a1);
        } else {
          var k :| 0 <= k < |indices| && 0 <= indices[k] < |a0| && a0[indices[k]].None?;
          assert indices[k] == index;
          TransposeMembership(categoryIndexMap, indexCategoryMap, |a0|, index, c);
          var m :| 0 <= m < |indexCategoryMap[index]| && indexCategoryMap[index][m] == c;
          assert Fits(categoryIndexMap, wordMap, c, a1);
          PatternAgrees(indices, a1, r);
          FullPatternMatch(indices, r, wordMap[c]);
        }
      }
    }

    /** Completeness step: a board that solves a0 and holds ch in the empty
        slot index passes the check once ch is placed there, and is then
        either the placed assignment itself, when that is complete, or a board
        that solves it. */
    lemma FindStep(a0: Assignment, index: int, ch: char)
      requires WellFormed(|a0|) && 0 <= index < |a0| && a0[index].None?
      ensures forall r :: Solves(r, a0) && r[index] == Some(ch) ==>
                && (forall k :: 0 <= k < |indexCategoryMap[index]| ==>
                      Fits(categoryIndexMap, wordMap, indexCategoryMap[index][k], a0[index := Some(ch)]))
                && (if Complete(a0[index := Some(ch)]) then r == a0[index := Some(ch)]
                    else Solves(r, a0[index := Some(ch)]))
    {
      var a1 := a0[index := Some(ch)];
      forall r | Solves(r, a0) && r[index] == Some(ch)
        ensures forall k :: 0 <= k < |indexCategoryMap[index]| ==>
                  Fits(categoryIndexMap, wordMap, indexCategoryMap[index][k], a1)
        ensures if Complete(a1) then r == a1 else Solves(r, a1)
      {
        assert Agrees(a1, r);
        forall k | 0 <= k < |indexCategoryMap[index]|
          ensures Fits(categoryIndexMap, wordMap, indexCategoryMap[index][k], a1)
        {
          var c := indexCategoryMap[index][k];
          TransposeMembership(categoryIndexMap, indexCategoryMap, |a0|, index, c);
          var m :| 0 <= m < |categoryIndexMap[c]| && categoryIndexMap[c][m] == index;
          assert HasEmptySlot(categoryIndexMap[c], a0);
          PatternMatchesWord(categoryIndexMap[c], a1, r);
          var w := Word(categoryIndexMap[c], r);
          var j :| 0 <= j < |wordMap[c]| && wordMap[c][j] == w;
          assert Matches(Pattern(categoryIndexMap[c], a1), wordMap[c][j]);
        }
        if Complete(a1) {
          assert forall j :: 0 <= j < |r| ==> r[j] == a1[j];
        } else {
          forall c | c in categoryIndexMap && HasEmptySlot(categoryIndexMap[c], a1)
            ensures HasEmptySlot(categoryIndexMap[c], a0)
          {
            var k :| 0 <= k < |categoryIndexMap[c]| && 0 <= categoryIndexMap[c][k] < |a1| &&
                     a1[categoryIndexMap[c][k]].None?;
            assert a0[categoryIndexMap[c][k]].None?;
          }
        }
      }
    }
  }

  /** The whole run from a blank board: build the puzzle, invert its map, and
      search with every slot unassigned. The results are exactly the boards
      of capital letters in which every category with at least one slot
      spells a word of its list. */
  method SolveByLetters(n: int, cim: map<string, seq<int>>, db: map<string, seq<string>>)
      returns (solutions: seq<Assignment>)
    requires n > 0
    requires IndicesInRange(cim, n)
    requires forall c :: c in cim ==> c in db
    ensures forall s :: s in solutions <==> CapitalSolution(cim, db, n, s)
    ensures Distinct(solutions)
  {
    var puzzle := new Puzzle(n);
    puzzle.categoryIndexMap := cim;
    puzzle.GenerateInvertedMap();
    var csp := new LetterBasedCSP(puzzle, db);
    var blank := new Option<char>[n](_ => None);
    assert !Complete(blank[..]) by { assert blank[..][0].None?; }
    csp.RecursiveBacktracking(blank);
    solutions := csp.results;
    assert solutions[0..] == solutions;
    forall s
      ensures s in solutions <==> CapitalSolution(cim, db, n, s)
    {
      if s in solutions {
        var j :| 0 <= j < |solutions| && solutions[j] == s;
        assert csp.Solves(s, blank[..]);
        forall c | c in cim && |cim[c]| > 0
          ensures Spells(cim, db, c, s)
        {
          assert blank[..][cim[c][0]].None?;
          assert HasEmptySlot(cim[c], blank[..]);
        }
      }
      if CapitalSolution(cim, db, n, s) {
        forall c | c in cim && HasEmptySlot(cim[c], blank[..])
          ensures Spells(cim, db, c, s)
        {
          assert |cim[c]| > 0;
        }
        assert csp.Solves(s, blank[..]);
      }
    }
  }

  /** One category A over slots 0, 1, 2 with the words CAT and DOG: the
      solutions are the boards C,A,T and D,O,G and no other. */
  lemma CatDogSolutions(s: Assignment)
    ensures CapitalSolution(map["A" := [0, 1, 2]], map["A" := ["CAT", "DOG"]], 3, s) <==>
              s == [Some('C'), Some('A'), Some('T')] || s == [Some('D'), Some('O'), Some('G')]
  {
    var cim := map["A" := [0, 1, 2]];
    var db := map["A" := ["CAT", "DOG"]];
    if CapitalSolution(cim, db, 3, s) {
      assert Spells(cim, db, "A", s);
      ThreeSlotBoard(s, Word(cim["A"], s));
    }
    if s == [Some('C'), Some('A'), Some('T')] || s == [Some('D'), Some('O'), Some('G')] {
      var w := Word(cim["A"], s);
      assert w == [s[0].value, s[1].value, s[2].value];
      assert w == db["A"][0] || w == db["A"][1];
    }
  }

  /** The letter search on that puzzle finds exactly the two boards. */
  method TwoWordsByLetters() returns (solutions: seq<Assignment>)
    ensures |solutions| == 2
    ensures [Some('C'), Some('A'), Some('T')] in solutions && [Some('D'), Some('O'), Some('G')] in solutions
  {
    solutions := SolveByLetters(3, map["A" := [0, 1, 2]], map["A" := ["CAT", "DOG"]]);
    var cat := [Some('C'), Some('A'), Some('T')];
    var dog := [Some('D'), Some('O'), Some('G')];
    CatDogSolutions(cat);
    CatDogSolutions(dog);
    forall j | 0 <= j < |solutions|
      ensures solutions[j] == cat || solutions[j] == dog
    {
      CatDogSolutions(solutions[j]);
    }
    TwoDistinct(solutions, cat, dog);
  }
}
