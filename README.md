# Word puzzle constraint satisfaction, modelled in Dafny

The system fills a word puzzle. A puzzle is a row of N letter slots. Each
named category owns an ordered list of slot indices, and a word list
gives the words allowed in each category. A solution is a full assignment
in which every category spells a word of its list. Two backtracking solvers
search for solutions:

- **Letter-based search** (`LetterBasedCSP`). The variable is the lowest
  unassigned slot and the domain is the letters `A`..`Z`. Each letter is
  written into the slot in place. The categories through that slot are
  checked, and the slot is cleared again before the next letter.
- **Word-based search** (`WordBasedCSP`). The variable is the first category
  listed at the lowest unassigned slot, and the domain is that category's
  word list. Each word is written into the category's slots and every
  category is re-checked. A complete assignment is stored unless an equal
  one is already stored. Each attempt starts again from a snapshot. A
  separate pass re-validates the stored results.

Both solvers work on a `Puzzle`. It holds the category → slots map and its
transpose, the slot → categories map built by `GenerateInvertedMap`.

Layout:

- `csp.dfy`, module `Csp`: assignments (`seq<Option<char>>`, where `None`
  is an unassigned slot) and the pure specification functions. These are
  the null count, the lowest unassigned slot, the pattern handed to the
  regular-expression engine, the word a category spells, wildcard matching
  and the effect of writing a word.
- `puzzle.dfy`, module `Puzzles`: the `Puzzle` class and the transpose
  property of the inverted map.
- `letter_csp.dfy`, module `LetterSearch`: the `LetterBasedCSP` class over
  an `array<Option<char>>`, plus `SolveByLetters`, the whole run from a
  blank board.
- `word_csp.dfy`, module `WordSearch`: the `WordBasedCSP` class, plus
  `SolveByWords`, the whole run from a blank board followed by the
  re-validation pass.

The getters `Puzzle.GetCategoryIndexMap`, `GetIndexCategoryMap` and
`GetPuzzleSize`, and `WordBasedCSP.OrderDomainValues`, are plain field or
map reads. They are modelled as functions without contracts of their own.
`ConstructedSize` states what `GetPuzzleSize` and `GetIndexCategoryMap`
return once a puzzle has been built and inverted.

## Model

| member | source | states |
|---|---|---|
| Csp.NullCount | src/LetterBasedCSP.java:169 | The number of unassigned slots is at most the length. It is zero exactly when the assignment contains no null. |
| Csp.NullCountMonotone | src/WordBasedCSP.java:158 | Writing letters into slots, and never clearing one, does not raise the number of unassigned slots. |
| Csp.NullCountDecreases | src/LetterBasedCSP.java:166-174 | Filling a slot that was unassigned, and clearing none, strictly lowers the number of unassigned slots. This is the termination measure of both searches. |
| Csp.FirstEmpty | src/LetterBasedCSP.java:64-73 | The result is the smallest unassigned index. It is -1 exactly when every slot holds a letter. |
| Csp.Pattern | src/LetterBasedCSP.java:98-110 | The pattern has one character per listed slot. Character k is '.' when slot indices[k] is unassigned, and that slot's letter otherwise. |
| Csp.Word | src/WordBasedCSP.java:242-245 | The word read along a category has one letter per listed slot. Letter k is the letter in slot indices[k]. |
| Csp.FullPatternMatch | src/WordBasedCSP.java:97-111 | Once every slot of a category holds a letter other than '.', some word of the list matches its pattern exactly when the word it spells is in the list. |
| Csp.PatternMatchesWord | src/LetterBasedCSP.java:122-131 | The word a complete assignment spells along a category matches the category's pattern in every assignment whose letters it keeps. So a check never rejects a partial assignment on the way to a solution. |
| Csp.WrittenFrame | src/WordBasedCSP.java:134-141 | Writing a word leaves every slot outside the category unchanged, clears no assigned slot, and introduces no '.' when the word has none. |
| Csp.WrittenListed | src/WordBasedCSP.java:134-141 | After writing a word, every listed slot is assigned. Each slot holds the word's letter for its last listing. |
| Csp.WrittenAgrees | src/WordBasedCSP.java:134-141 | Writing into an assignment a the word that a complete r spells along the category gives an assignment that r still agrees with. |
| Puzzles.TransposeMembership | src/Puzzle.java:66-70 | In the inverted map, category c is listed at slot x exactly when x is listed under c. |
| Puzzles.TransposeUnique | src/Puzzle.java:62-71 | Two transposes of the same category map give every slot the same categories, the same number of times. |
| Puzzles.CountAt | src/Puzzle.java:68 | Appending a category to one slot's list raises that slot's count of the category by one and changes no other count. |
| Puzzles.CountedStep | src/Puzzle.java:67-69 | Appending a category to the list of one more listed slot keeps every slot's count equal to the number of times the slot is listed so far. |
| Puzzles.Puzzle.constructor | src/Puzzle.java:30-34 | A new puzzle stores its size and starts with both maps empty. |
| Puzzles.Puzzle.GenerateInvertedMap | src/Puzzle.java:62-71 | Afterwards every slot 0..size-1 is a key. Category c occurs in a slot's list as often as the slot is listed under c. Other keys are untouched, and the category map and the size are not changed. |
| Puzzles.Puzzle.AddCategory | src/Puzzle.java:67-69 | Appending a category to the lists of its slots raises each slot's count of that category by the number of times the slot is listed. It changes no other count and no key. |
| Puzzles.ConstructedSize | src/Puzzle.java:82-84 | A puzzle built with size n and filled with an in-range category map reports size n after its map is inverted. Its inverted map is the transpose of the category map. |
| Puzzles.InvertTwice | src/Puzzle.java:64 | Inverting a second time rebuilds the same content for every slot, so the operation is idempotent up to the order inside each list. |
| LetterSearch.LetterBasedCSP.constructor | src/LetterBasedCSP.java:36-41 | A new solver has no results and the alphabet 'A'..'Z'. |
| LetterSearch.LetterBasedCSP.DefineAlphabet | src/LetterBasedCSP.java:47-53 | The alphabet is exactly the 26 capital letters, in ascending order. |
| LetterSearch.LetterBasedCSP.SelectUnassignedVariable | src/LetterBasedCSP.java:64-73 | The result is the lowest unassigned slot, or -1 when there is none. |
| LetterSearch.LetterBasedCSP.GetWordRegEx | src/LetterBasedCSP.java:98-110 | The result is the category's pattern in the current assignment. |
| LetterSearch.LetterBasedCSP.CheckIfConsistent | src/LetterBasedCSP.java:119-139 | The result is true exactly when every category through the slot still has a word that matches its pattern. It is true for a slot with no category. |
| LetterSearch.LetterBasedCSP.DeepCopyCharArrayList | src/LetterBasedCSP.java:147-153 | The copy equals the complete assignment. As a value, it cannot be changed by later writes to the array. |
| LetterSearch.LetterBasedCSP.RecursiveBacktracking | src/LetterBasedCSP.java:162-181 | Requires an unassigned slot. On return the assignment is as it was on entry, and results only grow. The new results are exactly the solutions of the entry assignment, each one once: each is complete, keeps the entry letters, fills the empty slots with capitals and spells a word in every category that had an unassigned slot; every such assignment is among them; no two of them are equal. |
| LetterSearch.LetterBasedCSP.TryLetter | src/LetterBasedCSP.java:165-178 | One letter of the loop: placing it, checking, storing or descending, then clearing the slot adds only solutions of the entry assignment that hold that letter in the slot, no two equal, and adds every solution that has that letter in the slot. |
| LetterSearch.LetterBasedCSP.SolvesStep | src/LetterBasedCSP.java:166-176 | A result found after a letter is placed and the slot's categories are checked also solves the assignment from before the placement. |
| LetterSearch.LetterBasedCSP.FindStep | src/LetterBasedCSP.java:166-175 | A solution with the placed letter in the slot passes the check of the slot's categories. It is the stored copy when the board is then complete, and it is a solution of the new assignment otherwise. |
| LetterSearch.SolveByLetters | src/TestRunner.java:52-71 | From a blank board of N > 0 slots, an assignment is a result exactly when it fills every slot with a capital letter and every category with at least one slot spells a word of its list. No result occurs twice. |
| LetterSearch.CatDogSolutions | src/LetterBasedCSP.java:162-181 | For one category over slots 0, 1, 2 with the words CAT and DOG, the boards the letter search solves for are C,A,T and D,O,G and no other. |
| LetterSearch.TwoWordsByLetters | src/TestRunner.java:62-68 | Run on that puzzle, the letter search returns exactly two results, C,A,T and D,O,G. |
| WordSearch.WordBasedCSP.constructor | src/WordBasedCSP.java:31-35 | A new solver has no results. |
| WordSearch.WordBasedCSP.SelectUnassignedVariable | src/WordBasedCSP.java:42-52 | The result is the first category listed at the lowest unassigned slot, or at slot 0 when none is unassigned. It is None when that slot has no category, where the lookup fails. |
| WordSearch.WordBasedCSP.ChosenCoversFirstEmpty | src/WordBasedCSP.java:42-52 | A chosen category is a known category, and its slots include the lowest unassigned slot. |
| WordSearch.ListedSlotsCovered | src/WordBasedCSP.java:42-52 | When every slot is listed under some category, every slot of the inverted map has a category, so the lookup of the first category at a slot never fails. |
| WordSearch.WordBasedCSP.GetWordRegEx | src/WordBasedCSP.java:71-83 | The result is the category's pattern in the current assignment. |
| WordSearch.WordBasedCSP.CheckIfConsistent | src/WordBasedCSP.java:92-112 | The result is true exactly when every category of the puzzle still has a word that matches its pattern. The argument category is not consulted. |
| WordSearch.WordBasedCSP.DeepCopyCharArrayList | src/WordBasedCSP.java:120-126 | The copy is a new array with the same content. |
| WordSearch.WordBasedCSP.AddToAssignment | src/WordBasedCSP.java:134-141 | The new content is the old content with the word written into the category's slots. |
| WordSearch.WordBasedCSP.DuplicateResultCheck | src/WordBasedCSP.java:194-201 | The result is true exactly when an equal assignment is already stored. |
| WordSearch.WordBasedCSP.StoredAppend | src/WordBasedCSP.java:164-172 | Appending a complete, consistent assignment that is not yet stored keeps the results complete, consistent and pairwise distinct. |
| WordSearch.WordBasedCSP.StoreIfNew | src/WordBasedCSP.java:164-172 | A complete, consistent assignment is appended exactly when no equal one is stored, and the stored results stay distinct. |
| WordSearch.WordBasedCSP.WriteShrinks | src/WordBasedCSP.java:152-175 | Writing a word of the chosen category, when the result is still incomplete, strictly lowers the number of unassigned slots. |
| WordSearch.WordBasedCSP.WordStep | src/WordBasedCSP.java:154-176 | Writing the word a solution spells in the chosen category passes the check of every category. The result is that solution when it is complete, and an assignment the solution still completes otherwise. |
| WordSearch.WordBasedCSP.RecursiveBacktracking | src/WordBasedCSP.java:150-187 | Results only grow and stay complete, consistent and pairwise distinct. When every slot has a category the search runs to the end, and then every solution that keeps the entry letters is among the results. When no category can be chosen, the search stops at once with nothing added. |
| WordSearch.WordBasedCSP.TryWord | src/WordBasedCSP.java:154-181 | Each attempt hands back a fresh snapshot equal to the assignment it started from. Results only grow and stay complete, consistent and distinct. When every slot has a category it runs to the end, and then every solution that keeps the entry letters and spells this word in the chosen category is stored. |
| WordSearch.WordBasedCSP.TestResults | src/WordBasedCSP.java:233-254 | The flags array has one entry per result. Entry j is true exactly when every category spells a word of its list in result j. |
| WordSearch.WordBasedCSP.StoredResultsAreValid | src/WordBasedCSP.java:161-167 | With words free of '.', every stored result spells a word of its list in every category. |
| WordSearch.WildcardWordStored | src/WordBasedCSP.java:97-111 | With a word "." in one category and "X" in another over the same slot, the board '.' passes the check of every category, yet the second category does not spell a word of its list. |
| WordSearch.SolveByWords | src/TestRunner.java:73-90 | From a blank board, the results are distinct, complete and spell a word in every category, and the re-validation flags every one of them valid. When N > 0 and every slot is listed under some category, the search runs to the end, and every solution is among the results. A puzzle with no slots stops the search without a result. |
| WordSearch.CatDogSolutions | src/WordBasedCSP.java:233-254 | For one category over slots 0, 1, 2 with the words CAT and DOG, the boards that spell a word of the list are C,A,T and D,O,G and no other. |
| WordSearch.TwoWordsByWords | src/TestRunner.java:83-88 | Run on that puzzle, the word search returns exactly two results, C,A,T and D,O,G, and flags both valid. |

## Left out

- File reading (`WordFileReader`), the word database holder (`WordDatabase`) and the test driver's console output are not part of this model. The word database is a `map<string, seq<string>>` parameter. Slot positions are assumed to be 0-based and inside the puzzle; the model requires this of the category map, while the reader itself makes no range check.
- Every category must be a key of the word map; the model requires this. In the source a category without a word list makes the consistency check dereference null (src/WordBasedCSP.java:101, src/LetterBasedCSP.java:126), which is not modelled.
- All printing, including the trace prints inside the word search and the `printResults`/`PrintPuzzle` routines, has no effect on the results and is left out. So is the word search's `depth` parameter, which only indents the trace.
- The regular-expression engine is replaced by wildcard matching: equal length, and at each position '.' or the same letter. From a blank board the letter search's patterns hold only 'A'..'Z' and '.', so the two differ only for a word containing a line terminator, which '.' does not match. The model accepts any entry letter other than '.' and reads it literally; an entry letter that is a regular-expression metacharacter would make the source's matcher throw or read it as an operator. In the word search the patterns also hold letters copied from words: the model requires words without '.', because with one the search stores boards the re-check rejects (see Findings). Words holding other regular-expression metacharacters or line terminators are assumed absent, which the model does not state.
- HashMap iteration order is not pinned. Key loops pick any remaining key, and the transpose is stated by counts, so the order inside each inverted list is open. The order of results and which category `get(0)` picks follow from that order.
- The solvers keep value copies of the puzzle's two maps and of the word map. The source shares the objects, but nothing changes them during a search, so aliasing is not modelled.
- Puzzles.Puzzle.GenerateInvertedMap: requires every listed slot to lie in 0..size-1. The source then fails with a null dereference, which is not modelled.
- LetterSearch.LetterBasedCSP.RecursiveBacktracking: requires an unassigned slot. With none, the source selects -1 and `set(-1)` throws, which is not modelled. The same holds for a puzzle of size 0.
- LetterSearch.LetterBasedCSP.DeepCopyCharArrayList: requires a complete assignment. The source unboxes each element, so a null would throw, and only complete assignments are copied.
- WordSearch.WordBasedCSP.RecursiveBacktracking: the exception the source raises when the chosen slot has no category is modelled as returning `false`, which ends the whole search. This includes `get(0)` on a puzzle of size 0. The flag is false only on that path; it is proved true when every slot has a category (`Covered`). After the exception only soundness and distinctness of the results are promised, not that every solution was found.
- WordSearch.WordBasedCSP.AddToAssignment: requires every word to be at least as long as its category. A shorter word makes `charAt` throw in the source, which is not modelled.
- WordSearch.WordBasedCSP.TryWord: this is the body of the search loop, made a method of its own. The loop continues from the snapshot it hands back, as the source continues from `old_assignment`.
- That the two searches find the same solutions is not stated as one lemma. Each is characterised against its own solution predicate: the letter search also demands capital letters and ignores categories with no slot.
- In the word search, the caller's assignment is not restored. Only the local reference is replaced by the snapshot. The first word's letters, and then whatever the nested calls' first attempts write over shared slots, are left in the caller's array. The model makes no promise about the argument's content after a call, unlike the letter search, which clears every slot it set.

## Findings

| source | as written | input that shows it | evidently intended | confidence | as-written member | corrected member |
|---|---|---|---|---|---|---|
| src/WordBasedCSP.java:97-111 | A word containing '.' is written into the board, where the consistency check reads it back as a regular-expression wildcard, so a complete board that spells no word of some category passes and is stored. | Category A at slot 0 with words ["."], category B at slot 0 with words ["X"]: the board ['.'] is stored, and the re-check at src/WordBasedCSP.java:233-254 flags it invalid. | Every stored result spells a word of its list in every category, so the re-check flags every result valid. | not executed | WordSearch.WildcardWordStored | WordSearch.WordBasedCSP.StoredResultsAreValid |
