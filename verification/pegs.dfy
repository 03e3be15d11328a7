/** Feedback pegs and the four-peg Score value (Score.java), with the
    enumeration of a score's distinct reorderings ("combinations"). */
module Pegs {
  import opened Wrappers
  import opened Codes

  /** Red: right colour, wrong place. White: exact match. Blank: the source's
      NONE, a position that scored nothing. Ignore: a wildcard used only in the
      partial scores of the older position-restricted rules (TestScores.java),
      meaning "no constraint on this position". */
  datatype Peg = Red | White | Blank | Ignore

  /** A score: an unordered collection of pegs, padded to one per position. */
  datatype Score = Score(pegs: multiset<Peg>) {
    ghost predicate Valid() {
      |pegs| == NumPositions && pegs[Ignore] == 0
    }

    /** Score.count */
    function Count(p: Peg): nat {
      pegs[p]
    }
  }

  /** Adds Blank pegs until there are at least n (the `while (size < n)
      add(NONE)` loops of Score.java, Game.java and TestScores.java). */
  function Pad(m: multiset<Peg>, n: nat): (r: multiset<Peg>)
    ensures |m| < n ==> |r| == n
    ensures |m| >= n ==> r == m
    ensures r[Blank] >= m[Blank]
    ensures forall p :: p != Blank ==> r[p] == m[p]
  {
    if |m| < n then m[Blank := m[Blank] + (n - |m|)] else m
  }

  lemma PadIdempotent(m: multiset<Peg>, n: nat)
    ensures Pad(Pad(m, n), n) == Pad(m, n)
  {
  }

  /** The Score(List) constructor: at most four pegs, padded with Blank. The
      enum of Score.java has no IGNORE, which the precondition records. */
  function MakeScore(pegs: seq<Peg>): (r: Result<Score>)
    requires Ignore !in pegs
    ensures r.Success? <==> |pegs| <= NumPositions
    ensures r.Success? ==> r.value.Valid()
    ensures r.Success? ==> r.value.pegs[Red] == multiset(pegs)[Red] && r.value.pegs[White] == multiset(pegs)[White]
    ensures r.Success? ==> r.value.pegs[Red] + r.value.pegs[White] + r.value.pegs[Blank] == NumPositions
  {
    if |pegs| > NumPositions then Failure("more pegs than positions")
    else
      var padded := Pad(multiset(pegs), NumPositions);
      assert padded[Red] + padded[White] + padded[Blank] == NumPositions by {
        PegCount(padded);
      }
      Success(Score(padded))
  }

  /** Score equality is multiset equality: the order of the pegs given to the
      constructor does not matter, and missing pegs count as Blank. */
  lemma MakeScoreOrderInsensitive(a: seq<Peg>, b: seq<Peg>)
    requires Ignore !in a && Ignore !in b
    requires |a| <= NumPositions && |b| <= NumPositions
    ensures MakeScore(a) == MakeScore(b) <==> multiset(a)[Red] == multiset(b)[Red] && multiset(a)[White] == multiset(b)[White]
  {
    var ma, mb := multiset(a), multiset(b);
    if ma[Red] == mb[Red] && ma[White] == mb[White] {
      assert ma[Ignore] == 0 && mb[Ignore] == 0;
      var pa, pb := Pad(ma, NumPositions), Pad(mb, NumPositions);
      assert pa[Blank] == NumPositions - pa[Red] - pa[White] by {
        PegCount(pa);
      }
      assert pb[Blank] == NumPositions - pb[Red] - pb[White] by {
        PegCount(pb);
      }
      assert pa == pb by {
        forall p: Peg ensures pa[p] == pb[p] {
        }
      }
    }
  }

  /** The feedback holding `whites` WHITE and `reds` RED pegs. */
  function Tally(whites: nat, reds: nat): (r: multiset<Peg>)
    ensures r[White] == whites && r[Red] == reds && r[Blank] == 0 && r[Ignore] == 0
  {
    multiset{}[White := whites][Red := reds]
  }

  /** Feedback is determined by its WHITE and RED counts. */
  lemma TallyOf(f: multiset<Peg>)
    requires f[Blank] == 0 && f[Ignore] == 0
    ensures f == Tally(f[White], f[Red])
  {
    var t := Tally(f[White], f[Red]);
    forall p: Peg ensures f[p] == t[p] {
      assert p == Red || p == White || p == Blank || p == Ignore;
    }
  }

  /** The size of a multiset of pegs is the sum of the four counts. */
  lemma PegCount(m: multiset<Peg>)
    ensures |m| == m[Red] + m[White] + m[Blank] + m[Ignore]
  {
    var r := m[Red := 0][White := 0][Blank := 0][Ignore := 0];
    assert r == multiset{} by {
      forall p: Peg ensures r[p] == 0 {
        assert p == Red || p == White || p == Blank || p == Ignore;
      }
    }
    var mr := multiset{}[Red := m[Red]];
    var mw := multiset{}[White := m[White]];
    var mb := multiset{}[Blank := m[Blank]];
    var mi := multiset{}[Ignore := m[Ignore]];
    assert m == mr + mw + mb + mi by {
      forall p: Peg ensures m[p] == (mr + mw + mb + mi)[p] {
        assert p == Red || p == White || p == Blank || p == Ignore;
      }
    }
    SingletonCard(Red, m[Red]);
    SingletonCard(White, m[White]);
    SingletonCard(Blank, m[Blank]);
    SingletonCard(Ignore, m[Ignore]);
  }

  lemma {:induction false} SingletonCard(p: Peg, n: nat)
    ensures |multiset{}[p := n]| == n
  {
    if n > 0 {
      SingletonCard(p, n - 1);
      assert multiset{}[p := n] == multiset{}[p := n - 1] + multiset{p};
    }
  }

  // ---------------------------------------------------------------------
  // Combinations: the distinct orderings of a multiset of pegs
  // (Sets.newLinkedHashSet(Collections2.permutations(pegs))).

  /** Peg kinds in enum order. */
  const PegKinds: seq<Peg> := [Red, White, Blank, Ignore]

  lemma PegKindsComplete(p: Peg)
    ensures p in PegKinds
  {
  }

  /** Every distinct sequence whose multiset is m, each exactly once. */
  function Combinations(m: multiset<Peg>): (r: seq<seq<Peg>>)
    decreases |m|, 1
  {
    if |m| == 0 then [[]] else CombinationsFrom(m, 0)
  }

  /** The combinations of m whose first peg is PegKinds[k] or a later kind. */
  function CombinationsFrom(m: multiset<Peg>, k: nat): (r: seq<seq<Peg>>)
    requires |m| > 0 && k <= |PegKinds|
    decreases |m|, 0, |PegKinds| - k
  {
    if k == |PegKinds| then []
    else
      var p := PegKinds[k];
      (if p in m then Prepend(p, Combinations(m - multiset{p})) else [])
      + CombinationsFrom(m, k + 1)
  }

  function Prepend(p: Peg, cs: seq<seq<Peg>>): (r: seq<seq<Peg>>)
    ensures |r| == |cs|
    ensures forall i :: 0 <= i < |r| ==> r[i] == [p] + cs[i]
  {
    seq(|cs|, i requires 0 <= i < |cs| => [p] + cs[i])
  }

  /** Position of a peg kind in PegKinds. */
  function KindIndex(p: Peg): (k: nat)
    ensures k < |PegKinds| && PegKinds[k] == p
  {
    match p
    case Red => 0
    case White => 1
    case Blank => 2
    case Ignore => 3
  }

  lemma PrependMember(p: Peg, cs: seq<seq<Peg>>, c: seq<Peg>)
    ensures c in Prepend(p, cs) <==> |c| > 0 && c[0] == p && c[1..] in cs
  {
    var r := Prepend(p, cs);
    if |c| > 0 && c[0] == p && c[1..] in cs {
      var i :| 0 <= i < |cs| && cs[i] == c[1..];
      assert r[i] == c;
    }
    if c in r {
      var i :| 0 <= i < |r| && r[i] == c;
      assert c[1..] == cs[i];
    }
  }

  /** A sequence is a combination of m exactly when it reorders m. */
  lemma {:induction false} CombinationsExact(m: multiset<Peg>, c: seq<Peg>)
    ensures c in Combinations(m) <==> multiset(c) == m
    decreases |m|, 1
  {
    if |m| == 0 {
      assert c in Combinations(m) <==> c == [];
    } else {
      CombinationsFromExact(m, 0, c);
      if multiset(c) == m {
        assert |c| > 0;
      }
    }
  }

  lemma {:induction false} CombinationsFromExact(m: multiset<Peg>, k: nat, c: seq<Peg>)
    requires |m| > 0 && k <= |PegKinds|
    ensures c in CombinationsFrom(m, k) <==> multiset(c) == m && |c| > 0 && KindIndex(c[0]) >= k
    decreases |m|, 0, |PegKinds| - k
  {
    if k < |PegKinds| {
      CombinationsFromExact(m, k + 1, c);
      if PegKinds[k] in m {
        CombinationsExact(m - multiset{PegKinds[k]}, if |c| > 0 then c[1..] else c);
        PresentKindStep(m, k, c);
      } else {
        AbsentKindStep(m, k, c);
      }
    }
  }

  /** One step of CombinationsFromExact when the k-th kind occurs in m. */
  lemma PresentKindStep(m: multiset<Peg>, k: nat, c: seq<Peg>)
    requires |m| > 0 && k < |PegKinds| && PegKinds[k] in m
    requires c in CombinationsFrom(m, k + 1) <==> multiset(c) == m && |c| > 0 && KindIndex(c[0]) >= k + 1
    requires |c| > 0 ==> (c[1..] in Combinations(m - multiset{PegKinds[k]}) <==> multiset(c[1..]) == m - multiset{PegKinds[k]})
    ensures c in CombinationsFrom(m, k) <==> multiset(c) == m && |c| > 0 && KindIndex(c[0]) >= k
  {
    var p := PegKinds[k];
    var sub := Combinations(m - multiset{p});
    var here := Prepend(p, sub);
    assert CombinationsFrom(m, k) == here + CombinationsFrom(m, k + 1);
    PrependMember(p, sub, c);
    if |c| > 0 && c[0] == p {
      CombinationSplit(c);
    }
  }

  /** One step of CombinationsFromExact when the k-th kind does not occur in m. */
  lemma AbsentKindStep(m: multiset<Peg>, k: nat, c: seq<Peg>)
    requires |m| > 0 && k < |PegKinds| && PegKinds[k] !in m
    requires c in CombinationsFrom(m, k + 1) <==> multiset(c) == m && |c| > 0 && KindIndex(c[0]) >= k + 1
    ensures c in CombinationsFrom(m, k) <==> multiset(c) == m && |c| > 0 && KindIndex(c[0]) >= k
  {
    assert CombinationsFrom(m, k) == CombinationsFrom(m, k + 1);
    if multiset(c) == m && |c| > 0 {
      assert c[0] in multiset(c);
    }
  }

  lemma CombinationSplit(c: seq<Peg>)
    requires |c| > 0
    ensures multiset(c) == multiset{c[0]} + multiset(c[1..])
  {
    assert c == [c[0]] + c[1..];
  }

  predicate NoDuplicates<T(==)>(s: seq<T>) {
    forall i, j :: 0 <= i < j < |s| ==> s[i] != s[j]
  }

  lemma ConcatNoDuplicates<T>(a: seq<T>, b: seq<T>)
    requires NoDuplicates(a) && NoDuplicates(b)
    requires forall x :: x in a ==> x !in b
    ensures NoDuplicates(a + b)
  {
    var ab := a + b;
    forall i, j | 0 <= i < j < |ab| ensures ab[i] != ab[j] {
      if i < |a| <= j {
        assert ab[i] in a && ab[j] in b;
      }
    }
  }

  lemma PrependNoDuplicates(p: Peg, cs: seq<seq<Peg>>)
    requires NoDuplicates(cs)
    ensures NoDuplicates(Prepend(p, cs))
  {
    var r := Prepend(p, cs);
    forall i, j | 0 <= i < j < |r| ensures r[i] != r[j] {
      assert r[i][1..] == cs[i] && r[j][1..] == cs[j];
    }
  }

  /** No combination is listed twice. */
  lemma {:induction false} CombinationsDistinct(m: multiset<Peg>)
    ensures NoDuplicates(Combinations(m))
    decreases |m|, 1
  {
    if |m| > 0 {
      CombinationsFromDistinct(m, 0);
    }
  }

  lemma {:induction false} CombinationsFromDistinct(m: multiset<Peg>, k: nat)
    requires |m| > 0 && k <= |PegKinds|
    ensures NoDuplicates(CombinationsFrom(m, k))
    decreases |m|, 0, |PegKinds| - k
  {
    if k < |PegKinds| {
      var p := PegKinds[k];
      var rest := CombinationsFrom(m, k + 1);
      CombinationsFromDistinct(m, k + 1);
      if p in m {
        var sub := Combinations(m - multiset{p});
        CombinationsDistinct(m - multiset{p});
        PrependNoDuplicates(p, sub);
        PrependDisjointFromLater(m, k);
        ConcatNoDuplicates(Prepend(p, sub), rest);
      }
    }
  }

  /** Combinations starting with the k-th kind are not among those starting
      with a later kind. */
  lemma PrependDisjointFromLater(m: multiset<Peg>, k: nat)
    requires |m| > 0 && k < |PegKinds| && PegKinds[k] in m
    ensures forall c :: c in Prepend(PegKinds[k], Combinations(m - multiset{PegKinds[k]})) ==> c !in CombinationsFrom(m, k + 1)
  {
    var p := PegKinds[k];
    var sub := Combinations(m - multiset{p});
    var later := CombinationsFrom(m, k + 1);
    forall c | c in Prepend(p, sub) ensures c !in later {
      PrependMember(p, sub, c);
      assert c[0] == p && KindIndex(c[0]) == k;
      CombinationsFromExact(m, k + 1, c);
    }
  }

  /** Score.combinations */
  function Combos(s: Score): (r: seq<seq<Peg>>)
    requires s.Valid()
    ensures forall c :: c in r <==> multiset(c) == s.pegs
    ensures forall c :: c in r ==> |c| == NumPositions
    ensures NoDuplicates(r)
  {
    var r := Combinations(s.pegs);
    forall c ensures c in r <==> multiset(c) == s.pegs {
      CombinationsExact(s.pegs, c);
    }
    forall c | c in r ensures |c| == NumPositions {
      assert |multiset(c)| == |c|;
    }
    CombinationsDistinct(s.pegs);
    r
  }

  /** The number of combinations of a non-empty multiset is the sum, over
      the kinds it holds, of the combinations of what remains once one peg
      of that kind is taken first. */
  lemma CombinationsCount(m: multiset<Peg>)
    requires |m| > 0
    ensures |Combinations(m)| == KindTerm(m, Red) + KindTerm(m, White) + KindTerm(m, Blank) + KindTerm(m, Ignore)
  {
    CountFromStep(m, 0);
    CountFromStep(m, 1);
    CountFromStep(m, 2);
    CountFromStep(m, 3);
    assert CombinationsFrom(m, 4) == [];
  }

  lemma CountFromStep(m: multiset<Peg>, k: nat)
    requires |m| > 0 && k < |PegKinds|
    ensures |CombinationsFrom(m, k)| == KindTerm(m, PegKinds[k]) + |CombinationsFrom(m, k + 1)|
  {
    var p := PegKinds[k];
    var here := if p in m then Prepend(p, Combinations(m - multiset{p})) else [];
    assert CombinationsFrom(m, k) == here + CombinationsFrom(m, k + 1);
  }

  /** The number of combinations of m that start with p. */
  function KindTerm(m: multiset<Peg>, p: Peg): nat {
    if p in m then |Combinations(m - multiset{p})| else 0
  }

  /** The multinomial coefficient (r+w+b+i)! / (r! w! b! i!), by its
      recurrence on the kind of the first peg. */
  function Multinomial(r: nat, w: nat, b: nat, i: nat): (n: nat)
    ensures n >= 1
    decreases r + w + b + i
  {
    if r + w + b + i == 0 then 1
    else
      (if r > 0 then Multinomial(r - 1, w, b, i) else 0)
      + (if w > 0 then Multinomial(r, w - 1, b, i) else 0)
      + (if b > 0 then Multinomial(r, w, b - 1, i) else 0)
      + (if i > 0 then Multinomial(r, w, b, i - 1) else 0)
  }

  /** A multiset of pegs has as many combinations as the multinomial
      coefficient of its four counts. */
  lemma {:induction false} CombinationsMultinomial(m: multiset<Peg>)
    ensures |Combinations(m)| == Multinomial(m[Red], m[White], m[Blank], m[Ignore])
    decreases |m|, 1
  {
    PegCount(m);
    if |m| > 0 {
      CombinationsCount(m);
      KindTermMultinomial(m, Red);
      KindTermMultinomial(m, White);
      KindTermMultinomial(m, Blank);
      KindTermMultinomial(m, Ignore);
    }
  }

  /** The combinations starting with p are counted by the multinomial of the
      counts with one p removed. */
  lemma {:induction false} KindTermMultinomial(m: multiset<Peg>, p: Peg)
    ensures KindTerm(m, p) == if p in m then Multinomial(Less(m[Red], p == Red), Less(m[White], p == White), Less(m[Blank], p == Blank), Less(m[Ignore], p == Ignore)) else 0
    decreases |m|, 0
  {
    if p in m {
      var rest := m - multiset{p};
      CombinationsMultinomial(rest);
      assert rest[Red] == Less(m[Red], p == Red);
      assert rest[White] == Less(m[White], p == White);
      assert rest[Blank] == Less(m[Blank], p == Blank);
      assert rest[Ignore] == Less(m[Ignore], p == Ignore);
    }
  }

  /** n, less one when the flag is set (and n is positive). */
  function Less(n: nat, flag: bool): nat {
    if flag && n > 0 then n - 1 else n
  }

  /** The combination counts of TestScore.testPermutations: four Blanks have
      one ordering, one White among three Blanks four, and a White and a Red
      among two Blanks twelve. */
  lemma CombinationCountVectors(s: Score)
    requires s.Valid()
    ensures s.Count(Blank) == 4 ==> |Combos(s)| == 1
    ensures s.Count(White) == 1 && s.Count(Blank) == 3 ==> |Combos(s)| == 4
    ensures s.Count(White) == 1 && s.Count(Red) == 1 && s.Count(Blank) == 2 ==> |Combos(s)| == 12
  {
    CombinationsMultinomial(s.pegs);
    PegCount(s.pegs);
    assert Multinomial(0, 0, 4, 0) == 1;
    assert Multinomial(0, 1, 3, 0) == 4;
    assert Multinomial(1, 1, 2, 0) == 12;
  }
}
