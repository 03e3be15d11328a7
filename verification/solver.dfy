/** The solver: JaCoP's depth-first labelling of the four peg variables in
    input order, smallest value first, enumerates the codes in
    lexicographic order, so the solutions of a store are the codes that
    satisfy it, in that order (Game.search and Game.countSolutions). */
module Solver {
  import opened Wrappers
  import opened Codes
  import opened Constraints

  /** The codes of `codes` that satisfy every constraint of the store, in
      their original order. */
  function Filter(codes: seq<Code>, store: seq<Constraint>): (r: seq<Code>)
    ensures |r| <= |codes|
    ensures forall m :: m in r ==> m in codes && AllHold(store, m)
  {
    if |codes| == 0 then []
    else (if AllHold(store, codes[0]) then [codes[0]] else []) + Filter(codes[1..], store)
  }

  /** Filtering keeps every satisfying code. */
  lemma {:induction false} FilterKeeps(codes: seq<Code>, store: seq<Constraint>, m: Code)
    requires m in codes && AllHold(store, m)
    ensures m in Filter(codes, store)
  {
    if codes[0] != m {
      FilterKeeps(codes[1..], store, m);
    }
  }

  /** Strictly increasing in lexicographic order. */
  predicate Sorted(s: seq<Code>) {
    forall i, j :: 0 <= i < j < |s| ==> LexLess(s[i], s[j])
  }

  /** Filtering keeps the order. */
  lemma {:induction false} FilterSorted(codes: seq<Code>, store: seq<Constraint>)
    requires Sorted(codes)
    ensures Sorted(Filter(codes, store))
  {
    if |codes| > 0 {
      var tail := codes[1..];
      assert Sorted(tail) by {
        forall i, j | 0 <= i < j < |tail| ensures LexLess(tail[i], tail[j]) {
          assert tail[i] == codes[i + 1] && tail[j] == codes[j + 1];
        }
      }
      FilterSorted(tail, store);
      var rest := Filter(tail, store);
      forall k | 0 <= k < |rest| ensures LexLess(codes[0], rest[k]) {
        assert rest[k] in tail;
        var x :| 0 <= x < |tail| && tail[x] == rest[k];
        assert codes[x + 1] == rest[k];
      }
    }
  }

  /** The solutions of a store, in search order. */
  function Solutions(store: seq<Constraint>): (r: seq<Code>)
    ensures |r| <= NumCodes
  {
    Filter(AllCodes(), store)
  }

  /** A code is a solution exactly when it satisfies the store. */
  lemma SolutionsExact(store: seq<Constraint>, m: Code)
    ensures m in Solutions(store) <==> AllHold(store, m)
  {
    if AllHold(store, m) {
      AllCodesComplete(m);
      FilterKeeps(AllCodes(), store, m);
    }
  }

  /** The solutions come in lexicographic order. */
  lemma SolutionsSorted(store: seq<Constraint>)
    ensures Sorted(Solutions(store))
  {
    var all := AllCodes();
    assert Sorted(all) by {
      forall i, j | 0 <= i < j < |all| ensures LexLess(all[i], all[j]) {
        AllCodesSorted(i, j);
      }
    }
    FilterSorted(all, store);
  }

  /** The codes that satisfy every constraint of the store. */
  function SolutionSet(store: seq<Constraint>): set<Code> {
    set m | m in AllCodes() && AllHold(store, m)
  }

  /** The search meets each satisfying code exactly once: as many
      solutions as satisfying codes. */
  lemma SolutionsCount(store: seq<Constraint>)
    ensures |Solutions(store)| == |SolutionSet(store)|
  {
    var sols := Solutions(store);
    SolutionsSorted(store);
    assert forall i, j :: 0 <= i < j < |sols| ==> sols[i] != sols[j] by {
      forall i, j | 0 <= i < j < |sols| ensures sols[i] != sols[j] {
        assert LexLess(sols[i], sols[j]);
      }
    }
    DistinctCard(sols);
    forall m: Code ensures m in sols <==> m in SolutionSet(store) {
      SolutionsExact(store, m);
      AllCodesComplete(m);
    }
    assert (set x | x in sols) == SolutionSet(store);
  }

  /** Game.countSolutions: the number of codes that satisfy the store, or
      the "no solutions" failure when there are none. */
  function CountSolutions(store: seq<Constraint>): (r: Result<nat>)
    ensures r.Success? ==> 0 < r.value <= NumCodes
    ensures r.Success? ==> r.value == |SolutionSet(store)|
  {
    SolutionsCount(store);
    var n := |Solutions(store)|;
    if n == 0 then Failure("No solutions found") else Success(n)
  }

  /** The count fails exactly when no code satisfies the store. */
  lemma CountSolutionsFails(store: seq<Constraint>)
    ensures CountSolutions(store).Failure? <==> forall m: Code :: !AllHold(store, m)
  {
    if m: Code :| AllHold(store, m) {
      SolutionsExact(store, m);
    }
    if |Solutions(store)| > 0 {
      var m := Solutions(store)[0];
      SolutionsExact(store, m);
    }
  }

  /** Game.search: walk the solutions in order and take the first one not
      yet played; when every solution has been played, the walk ends on the
      last one. */
  method Search(store: seq<Constraint>, moves: seq<Code>) returns (r: Result<Code>)
    ensures r.Failure? <==> forall m: Code :: !AllHold(store, m)
    ensures r.Success? ==> AllHold(store, r.value)
    ensures r.Success? && r.value !in moves ==>
      forall m: Code :: AllHold(store, m) && LexLess(m, r.value) ==> m in moves
    ensures r.Success? && r.value in moves ==>
      forall m: Code :: AllHold(store, m) ==> m in moves && !LexLess(r.value, m)
  {
    var sols := Solutions(store);
    CountSolutionsFails(store);
    if |sols| == 0 {
      return Failure("No solutions found");
    }
    SolutionsSorted(store);
    var i := 0;
    var solution := sols[0];
    while i < |sols|
      invariant 0 <= i <= |sols|
      invariant forall k :: 0 <= k < i ==> sols[k] in moves
      invariant i > 0 ==> solution == sols[i - 1]
    {
      solution := sols[i];
      if solution !in moves {
        FirstUnplayed(store, moves, sols, i);
        return Success(solution);
      }
      i := i + 1;
    }
    LastSolution(store, moves, sols);
    return Success(solution);
  }

  lemma FirstUnplayed(store: seq<Constraint>, moves: seq<Code>, sols: seq<Code>, i: nat)
    requires sols == Solutions(store) && Sorted(sols) && i < |sols|
    requires forall k :: 0 <= k < i ==> sols[k] in moves
    ensures AllHold(store, sols[i])
    ensures forall m: Code :: AllHold(store, m) && LexLess(m, sols[i]) ==> m in moves
  {
    forall m: Code | AllHold(store, m) && LexLess(m, sols[i]) ensures m in moves {
      SolutionsExact(store, m);
      var k :| 0 <= k < |sols| && sols[k] == m;
      assert k < i;
    }
  }

  lemma LastSolution(store: seq<Constraint>, moves: seq<Code>, sols: seq<Code>)
    requires sols == Solutions(store) && Sorted(sols) && |sols| > 0
    requires forall k :: 0 <= k < |sols| ==> sols[k] in moves
    ensures AllHold(store, sols[|sols| - 1])
    ensures forall m: Code :: AllHold(store, m) ==> m in moves && !LexLess(sols[|sols| - 1], m)
  {
    var last := |sols| - 1;
    forall m: Code | AllHold(store, m) ensures m in moves && !LexLess(sols[last], m) {
      SolutionsExact(store, m);
      var k :| 0 <= k < |sols| && sols[k] == m;
      assert k == last || LexLess(sols[k], sols[last]);
    }
  }
}
