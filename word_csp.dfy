/** Word-based backtracking: the variable is a category, its domain that
    category's word list. Each word is written into the category's slots,
    every category of the puzzle is re-checked, complete assignments are
    stored unless an equal one is already stored, and the assignment is
    restored from a snapshot before the next word is tried. */
module WordSearch {
  import opened Csp
  import opened Puzzles

  class WordBasedCSP {
    const categoryIndexMap: map<string, seq<int>>
    const indexCategoryMap: map<int, seq<string>>
    const wordMap: map<string, seq<string>>
    /** The distinct complete assignments found, in the order found. */
    var results: seq<Assignment>

    constructor (puzzle: Puzzle, db: map<string, seq<string>>)
      ensures categoryIndexMap == puzzle.categoryIndexMap
      ensures indexCategoryMap == puzzle.indexCategoryMap
      ensures wordMap == db
      ensures results == []
    {
      categoryIndexMap := puzzle.categoryIndexMap;
      indexCategoryMap := puzzle.indexCategoryMap;
      wordMap := db;
      results := [];
    }

    /** The inputs a search over n slots relies on: those of every solver,
        only known categories in the slot map, and words at least as long as
        their category and free of the wildcard. */
    ghost predicate WellFormed(n: int) {
      && SolverInputs(categoryIndexMap, indexCategoryMap, wordMap, n)
      && (forall x, c :: x in indexCategoryMap && c in indexCategoryMap[x] ==> c in categoryIndexMap)
      && (forall c, k :: c in categoryIndexMap && 0 <= k < |wordMap[c]| ==>
            |wordMap[c][k]| >= |categoryIndexMap[c]| && PlainWord(wordMap[c][k]))
    }

    /** Every category of the puzzle fits a word of its list. */
    ghost predicate AllFit(a: Assignment) {
      forall c :: c in categoryIndexMap ==> Fits(categoryIndexMap, wordMap, c, a)
    }

    /** Every category of the puzzle spells a word of its list. */
    ghost predicate ValidSolution(r: Assignment) {
      forall c :: c in categoryIndexMap ==> Spells(categoryIndexMap, wordMap, c, r)
    }

    /** r is a solution of the whole puzzle that completes a0: it keeps a0's
        letters, fills every slot, and spells a word in every category. */
    ghost predicate Completes(r: Assignment, a0: Assignment) {
      Agrees(a0, r) && Complete(r) && ValidSolution(r)
    }

    /** Completeness step: writing into a0 the word that a solution r
        completing a0 spells in the chosen category passes the check, and
        gives r itself when the result is complete, or an assignment that r
        still completes. */
    lemma WordStep(a0: Assignment, chosen: string, wordVal: string)
      requires WellFormed(|a0|) && chosen in categoryIndexMap && |wordVal| >= |categoryIndexMap[chosen]|
      ensures forall r :: Completes(r, a0) && Word(categoryIndexMap[chosen], r) == wordVal ==>
                && AllFit(Written(a0, categoryIndexMap[chosen], wordVal))
                && (if Complete(Written(a0, categoryIndexMap[chosen], wordVal))
                    then r == Written(a0, categoryIndexMap[chosen], wordVal)
                    else Completes(r, Written(a0, categoryIndexMap[chosen], wordVal)))
    {
      var a1 := Written(a0, categoryIndexMap[chosen], wordVal);
      forall r | Completes(r, a0) && Word(categoryIndexMap[chosen], r) == wordVal
        ensures AllFit(a1)
        ensures if Complete(a1) then r == a1 else Completes(r, a1)
      {
        WrittenAgrees(a0, categoryIndexMap[chosen], wordVal, r);
        forall c | c in categoryIndexMap
          ensures Fits(categoryIndexMap, wordMap, c, a1)
        {
          PatternMatchesWord(categoryIndexMap[c], a1, r);
          var j :| 0 <= j < |wordMap[c]| && wordMap[c][j] == Word(categoryIndexMap[c], r);
        }
        if Complete(a1) {
          assert forall j :: 0 <= j < |r| ==> r[j] == a1[j];
        }
      }
    }

    /** What the stored results keep: each is a complete, consistent assignment
        of n slots, and no two are equal. */
    ghost predicate StoredResults(n: int)
      reads this
    {
      Stored(results, n)
    }

    ghost predicate Stored(rs: seq<Assignment>, n: int) {
      && (forall j :: 0 <= j < |rs| ==>
            |rs[j]| == n && Complete(rs[j]) && NoWildcard(rs[j]) && AllFit(rs[j]))
      && (forall j, k :: 0 <= j < k < |rs| ==> rs[j] != rs[k])
    }

    /** Appending a complete, consistent assignment that is not yet stored
        keeps the stored results distinct and consistent. */
    lemma StoredAppend(rs: seq<Assignment>, r: Assignment, n: int)
      requires Stored(rs, n) && r !in rs
      requires |r| == n && Complete(r) && NoWildcard(r) && AllFit(r)
      ensures Stored(rs + [r], n)
    {
      var rs' := rs + [r];
      forall j, k | 0 <= j < k < |rs'|
        ensures rs'[j] != rs'[k]
      {
        if k == |rs| {
          assert rs'[j] == rs[j];
        }
      }
    }

    /** Writing a word of the chosen category leaves fewer unassigned slots,
        unless none was left to begin with. */
    lemma WriteShrinks(a0: Assignment, chosen: string, word: string)
      requires WellFormed(|a0|) && ChosenCategory(a0) == Some(chosen)
      requires chosen in categoryIndexMap && |word| >= |categoryIndexMap[chosen]|
      requires !Complete(Written(a0, categoryIndexMap[chosen], word))
      ensures NullCount(Written(a0, categoryIndexMap[chosen], word)) < NullCount(a0)
    {
      var indices := categoryIndexMap[chosen];
      var a1 := Written(a0, indices, word);
      WrittenFrame(a0, indices, word);
      var first := FirstEmpty(a0);
      ChosenCoversFirstEmpty(a0);
      var k :| 0 <= k < |indices| && indices[k] == first;
      WrittenListed(a0, indices, word);
      assert a1[indices[k]].Some?;
      NullCountDecreases(a0, a1, first);
    }

    /** The stored results can be read category by category. */
    ghost predicate ResultsReadable()
      reads this
    {
      && (forall c :: c in categoryIndexMap ==> c in wordMap)
      && (forall j, c :: 0 <= j < |results| && c in categoryIndexMap ==>
            Complete(results[j]) && InRange(categoryIndexMap[c], |results[j]|))
    }

    /** The category chosen for a: the first one listed at the lowest
        unassigned slot, or at slot 0 when no slot is unassigned; None when that
        slot has no category, where the lookup fails. */
    function ChosenCategory(a: Assignment): Option<string> {
      var i := if FirstEmpty(a) == -1 then 0 else FirstEmpty(a);
      if i in indexCategoryMap && |indexCategoryMap[i]| > 0 then Some(indexCategoryMap[i][0]) else None
    }

    /** Every slot of a board of n > 0 slots has a category listed at it, so
        the category lookup of the search never fails. */
    ghost predicate Covered(n: int) {
      n > 0 && forall x :: 0 <= x < n ==> x in indexCategoryMap && |indexCategoryMap[x]| > 0
    }

    /** A chosen category covers the lowest unassigned slot. */
    lemma ChosenCoversFirstEmpty(a: Assignment)
      requires WellFormed(|a|) && 0 <= FirstEmpty(a) && ChosenCategory(a).Some?
      ensures ChosenCategory(a).value in categoryIndexMap
      ensures FirstEmpty(a) in categoryIndexMap[ChosenCategory(a).value]
    {
      var i := FirstEmpty(a);
      TransposeMembership(categoryIndexMap, indexCategoryMap, |a|, i, indexCategoryMap[i][0]);
    }

    method SelectUnassignedVariable(assignment: array<Option<char>>) returns (category: Option<string>)
      ensures category == ChosenCategory(assignment[..])
    {
      var index := 0;
      for i := 0 to assignment.Length
        invariant forall j :: 0 <= j < i ==> assignment[j].Some?
      {
        if assignment[i].None? {
          index := i;
          break;
        }
      }
      if index in indexCategoryMap && |indexCategoryMap[index]| > 0 {
        category := Some(indexCategoryMap[index][0]);
      } else {
        category := None;
      }
    }

    function OrderDomainValues(category: string): seq<string>
      requires category in wordMap
    {
      wordMap[category]
    }

    method GetWordRegEx(category: string, assignment: array<Option<char>>) returns (partialWord: string)
      requires category in categoryIndexMap && InRange(categoryIndexMap[category], assignment.Length)
      ensures partialWord == Pattern(categoryIndexMap[category], assignment[..])
    {
      partialWord := "";
      var indices := categoryIndexMap[category];
      for k := 0 to |indices|
        invariant partialWord == Pattern(indices[..k], assignment[..])
      {
        var index := indices[k];
        assert indices[..k + 1][..k] == indices[..k];
        if assignment[index].None? {
          partialWord := partialWord + [Wildcard];
        } else {
          partialWord := partialWord + [assignment[index].value];
        }
      }
      assert indices[..|indices|] == indices;
    }

    /** True exactly when every category of the puzzle fits a word of its
        list; the category just written is not consulted. */
    method CheckIfConsistent(augmentedCategory: string, assignment: array<Option<char>>) returns (consistent: bool)
      requires SolverInputs(categoryIndexMap, indexCategoryMap, wordMap, assignment.Length)
      ensures consistent <==> AllFit(assignment[..])
    {
      var keys := categoryIndexMap.Keys;
      while keys != {}
        invariant keys <= categoryIndexMap.Keys
        invariant forall c :: c in categoryIndexMap && c !in keys ==> Fits(categoryIndexMap, wordMap, c, assignment[..])
        decreases keys
      {
        var category :| category in keys;
        var partialWord := GetWordRegEx(category, assignment);
        var wordExistsInCategory := false;
        var words := wordMap[category];
        for j := 0 to |words|
          invariant !wordExistsInCategory ==> forall m :: 0 <= m < j ==> !Matches(partialWord, words[m])
          invariant wordExistsInCategory ==> HasMatch(partialWord, words)
        {
          if Matches(partialWord, words[j]) {
            wordExistsInCategory := true;
            break;
          }
        }
        if !wordExistsInCategory {
          return false;
        }
        keys := keys - {category};
      }
      return true;
    }

    method DeepCopyCharArrayList(inputArray: array<Option<char>>) returns (copy: array<Option<char>>)
      ensures fresh(copy) && copy[..] == inputArray[..]
    {
      copy := new Option<char>[inputArray.Length];
      for i := 0 to inputArray.Length
        invariant forall j :: 0 <= j < i ==> copy[j] == inputArray[j]
      {
        copy[i] := inputArray[i];
      }
    }

    /** Writes the letters of wordVal into the category's slots, in order. */
    method AddToAssignment(assignment: array<Option<char>>, category: string, wordVal: string)
      requires category in categoryIndexMap && InRange(categoryIndexMap[category], assignment.Length)
      requires |wordVal| >= |categoryIndexMap[category]|
      modifies assignment
      ensures assignment[..] == Written(old(assignment[..]), categoryIndexMap[category], wordVal)
    {
      var indices := categoryIndexMap[category];
      var counter := 0;
      while counter < |indices|
        invariant 0 <= counter <= |indices|
        invariant assignment[..] == Written(old(assignment[..]), indices[..counter], wordVal)
      {
        var i := indices[counter];
        assert indices[..counter + 1][..counter] == indices[..counter];
        assignment[i] := Some(wordVal[counter]);
        counter := counter + 1;
      }
      assert indices[..counter] == indices;
    }

    /** True exactly when an equal assignment is already stored. */
    method DuplicateResultCheck(assignment: array<Option<char>>) returns (duplicate: bool)
      ensures duplicate <==> assignment[..] in results
    {
      for j := 0 to |results|
        invariant assignment[..] !in results[..j]
      {
        if results[j] == assignment[..] {
          return true;
        }
      }
      return false;
    }

    /** Stores a copy of a complete, consistent assignment unless an equal
        one is already stored. */
    method StoreIfNew(assignment: array<Option<char>>)
      requires Complete(assignment[..]) && NoWildcard(assignment[..]) && AllFit(assignment[..])
      requires StoredResults(assignment.Length)
      modifies this`results
      ensures StoredResults(assignment.Length)
      ensures results == if assignment[..] in old(results) then old(results) else old(results) + [assignment[..]]
    {
      var duplicate := DuplicateResultCheck(assignment);
      if !duplicate {
        var copy := DeepCopyCharArrayList(assignment);
        StoredAppend(results, copy[..], assignment.Length);
        results := results + [copy[..]];
      }
    }

    /** Searches every word of the chosen category, storing each new complete
        consistent assignment. Returns false when a slot with no category had
        to be chosen, where the search stops. */
    method RecursiveBacktracking(assignment: array<Option<char>>) returns (completed: bool)
      requires WellFormed(assignment.Length)
      requires NoWildcard(assignment[..])
      requires StoredResults(assignment.Length)
      modifies this`results, assignment
      ensures StoredResults(assignment.Length)
      ensures old(results) <= results
      ensures ChosenCategory(old(assignment[..])).None? ==> !completed && results == old(results)
      ensures Covered(assignment.Length) ==> completed
      ensures completed ==> forall r :: Completes(r, old(assignment[..])) ==> r in results
      decreases NullCount(assignment[..]), 1
    {
      var category := SelectUnassignedVariable(assignment);
      if category.None? {
        return false;
      }
      var chosen := category.value;
      ghost var a0 := assignment[..];
      ghost var r0 := results;
      ghost var slot := if FirstEmpty(a0) == -1 then 0 else FirstEmpty(a0);
      assert chosen in indexCategoryMap[slot];
      var a := assignment;
      var domain := OrderDomainValues(chosen);
      for i := 0 to |domain|
        invariant a == assignment || fresh(a)
        invariant a.Length == assignment.Length && a[..] == a0
        invariant StoredResults(assignment.Length)
        invariant r0 <= results
        invariant forall r :: Completes(r, a0) && Word(categoryIndexMap[chosen], r) in domain[..i] ==> r in results
      {
        ghost var rMid := results;
        var ok;
        ok, a := TryWord(a, chosen, domain[i]);
        if !ok {
          return false;
        }
        assert domain[..i + 1] == domain[..i] + [domain[i]];
        assert rMid[0..] == rMid && results[0..] == results;
        forall r | Completes(r, a0) && Word(categoryIndexMap[chosen], r) in domain[..i]
          ensures r in results
        {
          KeptInSuffix(rMid, results, 0, r);
        }
      }
      assert domain[..|domain|] == domain;
      forall r | Completes(r, a0)
        ensures Word(categoryIndexMap[chosen], r) in domain
      {
        assert Spells(categoryIndexMap, wordMap, chosen, r);
      }
      completed := true;
    }

    /** One pass of the search loop: snapshots the assignment, writes wordVal
        into the chosen category, stores the result when it is complete and
        consistent or searches on when it is consistent but incomplete, and
        hands back the snapshot to continue from. */
    method TryWord(assignment: array<Option<char>>, chosen: string, wordVal: string)
        returns (ok: bool, oldAssignment: array<Option<char>>)
      requires WellFormed(assignment.Length)
      requires NoWildcard(assignment[..])
      requires StoredResults(assignment.Length)
      requires ChosenCategory(assignment[..]) == Some(chosen)
      requires chosen in categoryIndexMap && chosen in wordMap && wordVal in wordMap[chosen]
      modifies this`results, assignment
      ensures fresh(oldAssignment) && oldAssignment[..] == old(assignment[..])
      ensures StoredResults(assignment.Length)
      ensures old(results) <= results
      ensures ok ==> forall r :: Completes(r, old(assignment[..])) && Word(categoryIndexMap[chosen], r) == wordVal ==>
                       r in results
      ensures Covered(assignment.Length) ==> ok
      decreases NullCount(assignment[..]), 0
    {
      ghost var a0 := assignment[..];
      oldAssignment := DeepCopyCharArrayList(assignment);
      AddToAssignment(assignment, chosen, wordVal);
      WrittenFrame(a0, categoryIndexMap[chosen], wordVal);
      WordStep(a0, chosen, wordVal);
      var consistent := CheckIfConsistent(chosen, assignment);
      ok := true;
      if consistent {
        if Complete(assignment[..]) {
          StoreIfNew(assignment);
          assert assignment[..] in results;
        } else {
          WriteShrinks(a0, chosen, wordVal);
          ok := RecursiveBacktracking(assignment);
        }
      }
    }

    /** For each stored result, whether every category spells a word of its list. */
    method TestResults() returns (testResults: array<bool>)
      requires ResultsReadable()
      ensures testResults.Length == |results|
      ensures forall j :: 0 <= j < |results| ==> testResults[j] == ValidSolution(results[j])
    {
      testResults := new bool[|results|];
      for solnCount := 0 to |results|
        invariant forall j :: 0 <= j < solnCount ==> testResults[j] == ValidSolution(results[j])
      {
        var soln := results[solnCount];
        var bSolnValid := true;
        var keys := categoryIndexMap.Keys;
        while keys != {}
          invariant keys <= categoryIndexMap.Keys
          invariant bSolnValid <==> forall c :: c in categoryIndexMap && c !in keys ==>
                      Spells(categoryIndexMap, wordMap, c, soln)
          decreases keys
        {
          var category :| category in keys;
          var indices := categoryIndexMap[category];
          var tempWord := "";
          for k := 0 to |indices|
            invariant tempWord == Word(indices[..k], soln)
          {
            assert indices[..k + 1][..k] == indices[..k];
            tempWord := tempWord + [soln[indices[k]].value];
          }
          assert indices[..|indices|] == indices;
          if tempWord !in wordMap[category] {
            bSolnValid := false;
          }
          keys := keys - {category};
        }
        testResults[solnCount] := bSolnValid;
      }
    }

    /** Soundness: every stored result spells a word of its list in every category. */
    lemma StoredResultsAreValid(n: int)
      requires WellFormed(n) && StoredResults(n)
      ensures forall j :: 0 <= j < |results| ==> ValidSolution(results[j])
    {
      forall j, c | 0 <= j < |results| && c in categoryIndexMap
        ensures Spells(categoryIndexMap, wordMap, c, results[j])
      {
        var r := results[j];
        assert Fits(categoryIndexMap, wordMap, c, r);
        FullPatternMatch(categoryIndexMap[c], r, wordMap[c]);
      }
    }
  }

  /** Slot x is listed under some category. */
  ghost predicate SlotListed(cim: map<string, seq<int>>, x: int) {
    exists c :: c in cim && x in cim[c]
  }

  /** Every slot 0..n-1 is listed under some category. */
  ghost predicate EverySlotListed(cim: map<string, seq<int>>, n: int) {
    forall x :: 0 <= x < n ==> SlotListed(cim, x)
  }

  /** When every slot is listed under a category, every slot of the inverted
      map has a category, so the search's lookup never fails. */
  lemma ListedSlotsCovered(cim: map<string, seq<int>>, icm: map<int, seq<string>>, n: int)
    requires IsTranspose(cim, icm, n) && EverySlotListed(cim, n)
    ensures forall x :: 0 <= x < n ==> x in icm && |icm[x]| > 0
  {
    forall x | 0 <= x < n
      ensures x in icm && |icm[x]| > 0
    {
      assert SlotListed(cim, x);
      var c :| c in cim && x in cim[c];
      TransposeMembership(cim, icm, n, x, c);
    }
  }

  /** A solution of a whole board of n slots: every slot is filled and every
      category spells a word of its list. */
  ghost predicate Solution(cim: map<string, seq<int>>, db: map<string, seq<string>>, n: int, s: Assignment) {
    |s| == n && Complete(s) && forall c :: c in cim ==> Spells(cim, db, c, s)
  }

  /** Without words free of '.', the check the search stores results by is
      weaker than the re-check. Category A at slot 0 with the one word ".",
      category B at slot 0 with the one word "X": writing A's word fills the
      board with '.', every category still fits a word (B's pattern "."
      matches "X"), so the complete board is stored, yet B spells "." and the
      re-check flags the result invalid. */
  lemma WildcardWordStored()
    ensures var cim := map["A" := [0], "B" := [0]];
            var db := map["A" := ["."], "B" := ["X"]];
            var r := Written([None], cim["A"], db["A"][0]);
            && r == [Some(Wildcard)] && Complete(r)
            && Fits(cim, db, "A", r) && Fits(cim, db, "B", r)
            && Spells(cim, db, "A", r) && !Spells(cim, db, "B", r)
  {
    var cim := map["A" := [0], "B" := [0]];
    var db := map["A" := ["."], "B" := ["X"]];
    var r := Written([None], cim["A"], db["A"][0]);
    assert r == [None][0 := Some('.')];
    assert Pattern([0], r) == ".";
    assert Word([0], r) == ".";
    assert Matches(Pattern(cim["B"], r), db["B"][0]);
    assert Matches(Pattern(cim["A"], r), db["A"][0]);
  }

  /** The whole run from a blank board: build the puzzle, invert its map,
      search, and re-check the results. The results are distinct, complete and
      valid, the re-check flags every one of them valid, and a puzzle with no
      slots stops the search without a result. */
  method SolveByWords(n: int, cim: map<string, seq<int>>, db: map<string, seq<string>>)
      returns (completed: bool, solutions: seq<Assignment>, valid: array<bool>)
    requires n >= 0
    requires IndicesInRange(cim, n)
    requires forall c :: c in cim ==> c in db
    requires forall c, k :: c in cim && 0 <= k < |db[c]| ==> |db[c][k]| >= |cim[c]| && PlainWord(db[c][k])
    ensures valid.Length == |solutions|
    ensures forall j :: 0 <= j < valid.Length ==> valid[j]
    ensures forall s :: s in solutions ==> Solution(cim, db, n, s)
    ensures completed ==> forall s :: Solution(cim, db, n, s) ==> s in solutions
    ensures forall j, k :: 0 <= j < k < |solutions| ==> solutions[j] != solutions[k]
    ensures n == 0 ==> !completed && solutions == []
    ensures n > 0 && EverySlotListed(cim, n) ==> completed
  {
    var puzzle := new Puzzle(n);
    puzzle.categoryIndexMap := cim;
    puzzle.GenerateInvertedMap();
    var csp := new WordBasedCSP(puzzle, db);
    forall x, c | x in csp.indexCategoryMap && c in csp.indexCategoryMap[x]
      ensures c in cim
    {
      TransposeMembership(cim, csp.indexCategoryMap, n, x, c);
    }
    if n > 0 && EverySlotListed(cim, n) {
      ListedSlotsCovered(cim, csp.indexCategoryMap, n);
      assert csp.Covered(n);
    }
    var blank := new Option<char>[n](_ => None);
    ghost var start := blank[..];
    assert |start| == n && forall j :: 0 <= j < n ==> start[j].None?;
    completed := csp.RecursiveBacktracking(blank);
    solutions := csp.results;
    csp.StoredResultsAreValid(n);
    valid := csp.TestResults();
    forall s | s in solutions
      ensures Solution(cim, db, n, s)
    {
      var j :| 0 <= j < |solutions| && solutions[j] == s;
      assert csp.ValidSolution(s);
    }
    forall s | completed && Solution(cim, db, n, s)
      ensures s in solutions
    {
      assert Agrees(start, s);
      assert csp.Completes(s, start);
    }
  }

  /** One category A over slots 0, 1, 2 with the words CAT and DOG: the
      solutions are the boards C,A,T and D,O,G and no other. */
  lemma CatDogSolutions(s: Assignment)
    ensures Solution(map["A" := [0, 1, 2]], map["A" := ["CAT", "DOG"]], 3, s) <==>
              s == [Some('C'), Some('A'), Some('T')] || s == [Some('D'), Some('O'), Some('G')]
  {
    var cim := map["A" := [0, 1, 2]];
    var db := map["A" := ["CAT", "DOG"]];
    if Solution(cim, db, 3, s) {
      assert Spells(cim, db, "A", s);
      ThreeSlotBoard(s, Word(cim["A"], s));
    }
    if s == [Some('C'), Some('A'), Some('T')] || s == [Some('D'), Some('O'), Some('G')] {
      var w := Word(cim["A"], s);
      assert w == [s[0].value, s[1].value, s[2].value];
      assert w == db["A"][0] || w == db["A"][1];
      assert Spells(cim, db, "A", s);
    }
  }

  /** The word search on that puzzle runs to the end and finds exactly the
      two boards, each flagged valid. */
  method TwoWordsByWords() returns (solutions: seq<Assignment>, valid: array<bool>)
    ensures |solutions| == 2 && valid.Length == 2 && valid[0] && valid[1]
    ensures [Some('C'), Some('A'), Some('T')] in solutions && [Some('D'), Some('O'), Some('G')] in solutions
  {
    var cim := map["A" := [0, 1, 2]];
    var db := map["A" := ["CAT", "DOG"]];
    assert forall k :: 0 <= k < |db["A"]| ==> PlainWord(db["A"][k]);
    forall x | 0 <= x < 3
      ensures SlotListed(cim, x)
    {
      assert x in cim["A"];
    }
    var completed;
    completed, solutions, valid := SolveByWords(3, cim, db);
    var cat := [Some('C'), Some('A'), Some('T')];
    var dog := [Some('D'), Some('O'), Some('G')];
    CatDogSolutions(cat);
    CatDogSolutions(dog);
    forall j | 0 <= j < |solutions|
      ensures solutions[j] == cat || solutions[j] == dog
    {
      CatDogSolutions(solutions[j]);
    }
    TwoDistinct(solutions, cat, dog);
  }
}
