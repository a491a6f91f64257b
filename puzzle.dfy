/** The puzzle: its size, the category → slots map and its transpose, the
    slot → categories map. */
module Puzzles {
  import opened Csp

  /** Every slot listed under a category lies in 0..n-1. */
  ghost predicate IndicesInRange(cim: map<string, seq<int>>, n: int) {
    forall c :: c in cim ==> InRange(cim[c], n)
  }

  /** How many times slot x is listed under category c (none for an unknown category). */
  function Listed(cim: map<string, seq<int>>, c: string, x: int): nat {
    if c in cim then multiset(cim[c])[x] else 0
  }

  /** icm is the exact transpose of cim on the slots 0..n-1: every slot is a
      key, and category c occurs in the list of slot x as many times as x is
      listed under c. The order inside each list is not fixed. */
  ghost predicate IsTranspose(cim: map<string, seq<int>>, icm: map<int, seq<string>>, n: int) {
    && (forall x :: 0 <= x < n ==> x in icm)
    && (forall x, c :: 0 <= x < n && x in icm ==> multiset(icm[x])[c] == Listed(cim, c, x))
  }

  /** What the solvers need of their inputs: slots in range, the transpose,
      and a word list for every category. */
  ghost predicate SolverInputs(cim: map<string, seq<int>>, icm: map<int, seq<string>>,
                               db: map<string, seq<string>>, n: int)
  {
    IndicesInRange(cim, n) && IsTranspose(cim, icm, n) && (forall c :: c in cim ==> c in db)
  }

  /** Category c is listed at slot x exactly when x is listed under c. */
  lemma TransposeMembership(cim: map<string, seq<int>>, icm: map<int, seq<string>>, n: int, x: int, c: string)
    requires IsTranspose(cim, icm, n) && 0 <= x < n
    ensures c in icm[x] <==> c in cim && x in cim[c]
  {
    assert multiset(icm[x])[c] == Listed(cim, c, x);
  }

  /** The transpose is unique up to the order inside each list, so building
      it again from the same category map gives the same content. */
  lemma TransposeUnique(cim: map<string, seq<int>>, icm1: map<int, seq<string>>, icm2: map<int, seq<string>>, n: int)
    requires IsTranspose(cim, icm1, n) && IsTranspose(cim, icm2, n)
    ensures forall x :: 0 <= x < n ==> multiset(icm1[x]) == multiset(icm2[x])
  {
    forall x | 0 <= x < n
      ensures multiset(icm1[x]) == multiset(icm2[x])
    {
      forall c
        ensures multiset(icm1[x])[c] == multiset(icm2[x])[c]
      {
        assert multiset(icm1[x])[c] == Listed(cim, c, x);
      }
    }
  }

  /** lists is start with category key appended, at every slot 0..n-1, once
      per listing of that slot in listed; other categories' counts and the
      keys outside 0..n-1 are as in start. */
  ghost predicate Counted(start: map<int, seq<string>>, lists: map<int, seq<string>>, key: string,
                          listed: seq<int>, n: int)
  {
    && lists.Keys == start.Keys
    && (forall x :: 0 <= x < n ==> x in start)
    && (forall x, c :: 0 <= x < n ==>
          multiset(lists[x])[c] == multiset(start[x])[c] + (if c == key then multiset(listed)[x] else 0))
    && (forall x :: x in start && !(0 <= x < n) ==> lists[x] == start[x])
  }

  /** Appending key to the list of slot x raises slot x's count of key by
      one, exactly as listing x once more does, and leaves every other count
      as it was. */
  lemma CountAt(start: map<int, seq<string>>, lists: map<int, seq<string>>, key: string,
                listed: seq<int>, x: int, y: int, c: string)
    requires x in lists && y in lists && y in start
    requires multiset(lists[y])[c] == multiset(start[y])[c] + (if c == key then multiset(listed)[y] else 0)
    ensures multiset(lists[x := lists[x] + [key]][y])[c] ==
              multiset(start[y])[c] + (if c == key then multiset(listed + [x])[y] else 0)
  {
    assert multiset(listed + [x]) == multiset(listed) + multiset{x};
    if y == x {
      assert multiset(lists[x] + [key]) == multiset(lists[x]) + multiset{key};
    }
  }

  /** Appending key to the list of one more listed slot x keeps the count. */
  lemma CountedStep(start: map<int, seq<string>>, lists: map<int, seq<string>>, key: string,
                    listed: seq<int>, n: int, x: int)
    requires Counted(start, lists, key, listed, n) && 0 <= x < n
    ensures Counted(start, lists[x := lists[x] + [key]], key, listed + [x], n)
  {
    var next := lists[x := lists[x] + [key]];
    forall y, c | 0 <= y < n
      ensures multiset(next[y])[c] == multiset(start[y])[c] + (if c == key then multiset(listed + [x])[y] else 0)
    {
      CountAt(start, lists, key, listed, x, y, c);
    }
  }

  class Puzzle {
    var categoryIndexMap: map<string, seq<int>>
    var indexCategoryMap: map<int, seq<string>>
    var puzzleSize: int

    constructor (puzzleSize: int)
      ensures this.puzzleSize == puzzleSize
      ensures categoryIndexMap == map[] && indexCategoryMap == map[]
    {
      this.puzzleSize := puzzleSize;
      categoryIndexMap := map[];
      indexCategoryMap := map[];
    }

    /** Rebuilds the slot → categories map from the category → slots map.
        Categories are visited in some fixed but unspecified order, so the
        order inside each list is left open. */
    method GenerateInvertedMap()
      requires IndicesInRange(categoryIndexMap, puzzleSize)
      modifies this`indexCategoryMap
      ensures IsTranspose(categoryIndexMap, indexCategoryMap, puzzleSize)
      ensures forall x :: x in indexCategoryMap <==> x in old(indexCategoryMap) || 0 <= x < puzzleSize
      ensures forall x :: x in old(indexCategoryMap) && !(0 <= x < puzzleSize) ==>
                indexCategoryMap[x] == old(indexCategoryMap[x])
    {
      var i := 0;
      while i < puzzleSize
        invariant 0 <= i && (i <= puzzleSize || i == 0)
        invariant forall x :: x in indexCategoryMap <==> x in old(indexCategoryMap) || 0 <= x < i
        invariant forall x :: 0 <= x < i ==> indexCategoryMap[x] == []
        invariant forall x :: x in old(indexCategoryMap) && !(0 <= x < i) ==>
                    indexCategoryMap[x] == old(indexCategoryMap[x])
      {
        indexCategoryMap := indexCategoryMap[i := []];
        i := i + 1;
      }

      var keys := categoryIndexMap.Keys;
      while keys != {}
        invariant keys <= categoryIndexMap.Keys
        invariant forall x :: x in indexCategoryMap <==> x in old(indexCategoryMap) || 0 <= x < puzzleSize
        invariant forall x, c :: 0 <= x < puzzleSize ==>
                    multiset(indexCategoryMap[x])[c] == if c in keys then 0 else Listed(categoryIndexMap, c, x)
        invariant forall x :: x in old(indexCategoryMap) && !(0 <= x < puzzleSize) ==>
                    indexCategoryMap[x] == old(indexCategoryMap[x])
        decreases keys
      {
        var key :| key in keys;
        AddCategory(key);
        keys := keys - {key};
      }
    }

    /** The inner loop of GenerateInvertedMap: appends category key to the list
        of every slot listed under it, once per listing. */
    method AddCategory(key: string)
      requires key in categoryIndexMap && InRange(categoryIndexMap[key], puzzleSize)
      requires forall x :: 0 <= x < puzzleSize ==> x in indexCategoryMap
      modifies this`indexCategoryMap
      ensures Counted(old(indexCategoryMap), indexCategoryMap, key, categoryIndexMap[key], puzzleSize)
    {
      var indices := categoryIndexMap[key];
      var lists := indexCategoryMap;
      ghost var start := lists;
      var k := 0;
      while k < |indices|
        invariant 0 <= k <= |indices|
        invariant Counted(start, lists, key, indices[..k], puzzleSize)
      {
        var x := indices[k];
        assert indices[..k + 1] == indices[..k] + [x];
        CountedStep(start, lists, key, indices[..k], puzzleSize, x);
        lists := lists[x := lists[x] + [key]];
        k := k + 1;
      }
      assert indices[..k] == indices;
      indexCategoryMap := lists;
    }

    function GetCategoryIndexMap(): map<string, seq<int>>
      reads this
    {
      categoryIndexMap
    }

    function GetIndexCategoryMap(): map<int, seq<string>>
      reads this
    {
      indexCategoryMap
    }

    function GetPuzzleSize(): int
      reads this
    {
      puzzleSize
    }
  }

  /** A puzzle built with size n and filled with the category map cim, as the
      file reader fills the map the getter hands out, reports size n, also
      after its map has been inverted, and its inverted map is the transpose
      of cim. */
  method ConstructedSize(n: int, cim: map<string, seq<int>>) returns (size: int, inverted: map<int, seq<string>>)
    requires IndicesInRange(cim, n)
    ensures size == n
    ensures IsTranspose(cim, inverted, n)
  {
    var p := new Puzzle(n);
    p.categoryIndexMap := cim;
    p.GenerateInvertedMap();
    size := p.GetPuzzleSize();
    inverted := p.GetIndexCategoryMap();
  }

  /** Inverting twice: the second call leaves the category map and the size
      alone and gives every slot the same categories, as often, as the first. */
  method InvertTwice(p: Puzzle) returns (first: map<int, seq<string>>)
    requires IndicesInRange(p.categoryIndexMap, p.puzzleSize)
    modifies p
    ensures p.categoryIndexMap == old(p.categoryIndexMap) && p.puzzleSize == old(p.puzzleSize)
    ensures forall x :: 0 <= x < p.puzzleSize ==>
              x in first && x in p.indexCategoryMap && multiset(p.indexCategoryMap[x]) == multiset(first[x])
  {
    p.GenerateInvertedMap();
    first := p.indexCategoryMap;
    p.GenerateInvertedMap();
    TransposeUnique(p.categoryIndexMap, first, p.indexCategoryMap, p.puzzleSize);
  }
}
