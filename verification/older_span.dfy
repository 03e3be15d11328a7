/** Soundness of the older two- and three-position rules: the WHITE
    patterns always hold of the secret, the RED patterns hold when both
    guesses have four distinct colours, and without that condition the RED
    patterns of the rules as written can exclude the secret. */
module OlderSpan {
  import opened Wrappers
  import opened Codes
  import opened Pegs
  import opened Scoring
  import opened Constraints
  import opened Deltas
  import opened Rules
  import opened Restricted
  import opened OlderRules

  /** The size of a change, whichever its direction. */
  function Size(v: int): nat {
    if v < 0 then -v else v
  }

  /** What a pattern of the rules is made of, for n differing positions: k
      pegs of kind x and i IGNOREs; a WHITE pattern has one WHITE per WHITE
      changed and leaves room for its NONE padding, a RED pattern has one
      RED per RED changed and fills the positions. */
  predicate PatternOf(pattern: multiset<Peg>, n: nat, delta: Delta, x: Peg, k: nat, i: nat) {
    && (x == White || x == Red)
    && HasShape(pattern, x, k, 0, i) && |pattern| == k + i <= n
    && (delta.whiteDelta != 0 ==> x == White && k == Size(delta.whiteDelta) && 2 * (n - k - i) + k <= n + 1)
    && (delta.whiteDelta == 0 ==> x == Red && k == Size(delta.redDelta) && k + i == n)
  }

  /** Every pattern of the two-position rule has that make-up. */
  lemma PairShape(delta: Delta) returns (x: Peg, k: nat, i: nat)
    requires PairPattern(delta).Some?
    ensures PatternOf(PairPattern(delta).value, 2, delta, x, k, i)
  {
    var wd, rd := delta.whiteDelta, delta.redDelta;
    if wd == 0 {
      x := Red;
      if rd == 1 || rd == -1 {
        k, i := 1, 1;
      } else {
        k, i := 2, 0;
      }
    } else {
      x, i := White, 0;
      if wd == 1 || wd == -1 {
        k := 1;
      } else {
        k := 2;
      }
    }
  }

  /** Every pattern of the three-position rule has that make-up. */
  lemma TripleShape(delta: Delta) returns (x: Peg, k: nat, i: nat)
    requires TriplePattern(delta).Some?
    ensures PatternOf(TriplePattern(delta).value, 3, delta, x, k, i)
  {
    var wd, rd := delta.whiteDelta, delta.redDelta;
    if wd == 0 {
      x := Red;
      if rd == 1 || rd == -1 {
        k, i := 1, 2;
      } else if rd == 2 || rd == -2 {
        k, i := 2, 1;
      } else {
        k, i := 3, 0;
      }
    } else {
      x := White;
      if wd == 1 || wd == -1 {
        k, i := 1, 1;
      } else if wd == 2 || wd == -2 {
        k, i := 2, 0;
      } else {
        k, i := 3, 0;
      }
    }
  }

  /** Padding a pattern of k pegs of kind x and i IGNOREs to n gives the
      shape with n - k - i NONEs. */
  lemma PadShape(pattern: multiset<Peg>, n: nat, x: Peg, k: nat, i: nat)
    requires x == White || x == Red
    requires HasShape(pattern, x, k, 0, i) && |pattern| == k + i <= n
    ensures Pad(pattern, n) == Layout(x, k, n - k - i, i)
  {
    ShapeEqual(Pad(pattern, n), x, k, n - k - i, i);
  }

  /** The room a WHITE pattern needs: its WHITEs are among the exact
      matches of the guess it is laid against, and its NONEs among the rest. */
  lemma WhiteRoom(n: int, k: int, i: int, gained: int, kept: int)
    requires 0 <= kept && gained - kept == k && gained + kept <= n
    requires 2 * (n - k - i) + k <= n + 1
    ensures k <= gained && n - k - i <= n - gained
  {
  }

  /** A singleton store holds when its constraint does. */
  lemma HoldsOne(c: Constraint, s: Code)
    requires Eval(c, s)
    ensures AllHold([c], s)
  {
  }

  /** The two- or three-position rule for a pattern of that make-up holds
      of the secret whenever its RED patterns are only imposed on guesses of
      four distinct colours. */
  lemma SpanSound(secret: Code, move1: Code, move2: Code, score1: multiset<Peg>, score2: multiset<Peg>,
                  pattern: multiset<Peg>, redsAllowed: bool, x: Peg, k: nat, i: nat)
    requires ScoredAs(score1, secret, move1) && ScoredAs(score2, secret, move2)
    requires redsAllowed ==> BothDistinct(move1, move2)
    requires PatternOf(pattern, |Diff(move1, move2)|, ScoreDelta(score1, score2), x, k, i)
    ensures AllHold(SpanRule(move1, move2, ScoreDelta(score1, score2), Some(pattern), redsAllowed), secret)
  {
    var delta := ScoreDelta(score1, score2);
    var r := SpanRule(move1, move2, delta, Some(pattern), redsAllowed);
    if r != [] {
      var ps := Ascending(Diff(move1, move2));
      assert |ps| == |Diff(move1, move2)|;
      PadShape(pattern, |ps|, x, k, i);
      if delta.whiteDelta != 0 {
        WhiteSound(secret, move1, move2, delta, pattern, ps, k, i);
      } else {
        RedSound(secret, move1, move2, delta, pattern, ps, k, i);
      }
      HoldsOne(r[0], secret);
    }
  }

  /** A WHITE gain is laid against the second guess, a WHITE loss against
      the first; either way there is room for its WHITEs among the exact
      matches and for its NONEs among the other differing positions. */
  lemma WhiteSound(secret: Code, move1: Code, move2: Code, delta: Delta, pattern: multiset<Peg>, ps: seq<Pos>,
                   k: nat, i: nat)
    requires ps == Ascending(Diff(move1, move2))
    requires delta.whiteDelta == CountTrue(Exact(secret, move2)) as int - CountTrue(Exact(secret, move1)) as int
    requires delta.whiteDelta != 0
    requires PatternOf(pattern, |ps|, delta, White, k, i)
    requires Pad(pattern, |ps|) == Layout(White, k, |ps| - k - i, i)
    ensures Eval(PositionsConstraint(Toward(move1, move2, delta), pattern, ps), secret)
  {
    var n := |ps|;
    var e1, e2 := Exact(secret, move1), Exact(secret, move2);
    WhiteSplit(secret, move1, move2);
    if delta.whiteDelta > 0 {
      WhiteRoom(n, k, i, CountOver(ps, e2), CountOver(ps, e1));
      ExactLaid(secret, move2, pattern, ps, k, i);
    } else {
      WhiteRoom(n, k, i, CountOver(ps, e1), CountOver(ps, e2));
      ExactLaid(secret, move1, pattern, ps, k, i);
    }
  }

  /** WHITEs laid on exact matches and NONEs on other positions fit. */
  lemma ExactLaid(secret: Code, move: Code, pattern: multiset<Peg>, ps: seq<Pos>, k: nat, i: nat)
    requires k <= CountOver(ps, Exact(secret, move)) && k + i <= |ps|
    requires |ps| - k - i <= |ps| - CountOver(ps, Exact(secret, move))
    requires Pad(pattern, |ps|) == Layout(White, k, |ps| - k - i, i)
    ensures Eval(PositionsConstraint(move, pattern, ps), secret)
  {
    ExactFits(secret, move);
    ShapeSound(move, pattern, ps, secret, Exact(secret, move), White, k, |ps| - k - i, i);
  }

  /** A WHITE peg fits every exact match and a NONE every other position. */
  lemma ExactFits(secret: Code, move: Code)
    ensures forall p: Pos :: Exact(secret, move)[p] ==> PegFits(move, White, p, secret)
    ensures forall p: Pos :: !Exact(secret, move)[p] ==> secret[p] != move[p]
  {
    forall p: Pos ensures Exact(secret, move)[p] <==> move[p] == secret[p] {
      ExactAtP(secret, move, p);
    }
  }

  /** With four distinct colours in both guesses and no WHITE change, a RED
      gain is laid against the second guess and a RED loss against the
      first, and there are enough differing positions whose colour is
      elsewhere in the secret. */
  lemma RedSound(secret: Code, move1: Code, move2: Code, delta: Delta, pattern: multiset<Peg>, ps: seq<Pos>,
                 k: nat, i: nat)
    requires ps == Ascending(Diff(move1, move2))
    requires BothDistinct(move1, move2)
    requires CountTrue(Exact(secret, move1)) == CountTrue(Exact(secret, move2))
    requires delta.whiteDelta == 0
    requires delta.redDelta == RedReference(secret, move2) as int - RedReference(secret, move1) as int
    requires PatternOf(pattern, |ps|, delta, Red, k, i)
    requires Pad(pattern, |ps|) == Layout(Red, k, |ps| - k - i, i)
    ensures Eval(PositionsConstraint(Toward(move1, move2, delta), pattern, ps), secret)
  {
    if delta.redDelta > 0 {
      RedBound(secret, move1, move2);
      RedLaid(secret, move2, pattern, ps, k, i);
    } else {
      DiffSymmetric(move1, move2);
      RedBound(secret, move2, move1);
      RedLaid(secret, move1, pattern, ps, k, i);
    }
  }

  /** REDs laid where the guess's colour is elsewhere in the secret fit. */
  lemma RedLaid(secret: Code, move: Code, pattern: multiset<Peg>, ps: seq<Pos>, k: nat, i: nat)
    requires k <= CountOver(ps, RedMask(secret, move)) && k + i == |ps|
    requires Pad(pattern, |ps|) == Layout(Red, k, |ps| - k - i, i)
    ensures Eval(PositionsConstraint(move, pattern, ps), secret)
  {
    ShapeSound(move, pattern, ps, secret, RedMask(secret, move), Red, k, |ps| - k - i, i);
  }

  /** The two-position rule, with its RED patterns kept to guesses of four
      distinct colours, holds of the secret that scored both guesses. */
  lemma PairRuleSound(secret: Code, move1: Code, move2: Code, score1: multiset<Peg>, score2: multiset<Peg>)
    requires |Diff(move1, move2)| == 2
    requires ScoredAs(score1, secret, move1) && ScoredAs(score2, secret, move2)
    ensures AllHold(PairRule(move1, move2, score1, score2), secret)
  {
    var delta := ScoreDelta(score1, score2);
    if PairPattern(delta).Some? {
      var x, k, i := PairShape(delta);
      SpanSound(secret, move1, move2, score1, score2, PairPattern(delta).value, BothDistinct(move1, move2), x, k, i);
    }
  }

  /** The three-position rule, with its RED patterns kept to guesses of
      four distinct colours, holds of the secret that scored both guesses. */
  lemma TripleRuleSound(secret: Code, move1: Code, move2: Code, score1: multiset<Peg>, score2: multiset<Peg>)
    requires |Diff(move1, move2)| == 3
    requires ScoredAs(score1, secret, move1) && ScoredAs(score2, secret, move2)
    ensures AllHold(TripleRule(move1, move2, score1, score2), secret)
  {
    var delta := ScoreDelta(score1, score2);
    if TriplePattern(delta).Some? {
      var x, k, i := TripleShape(delta);
      SpanSound(secret, move1, move2, score1, score2, TriplePattern(delta).value, BothDistinct(move1, move2), x, k, i);
    }
  }

  /** The rules as written and the corrected rules differ exactly on a RED
      pattern drawn for a pair of guesses that are not both of four
      distinct colours. */
  lemma PairRuleAgrees(move1: Code, move2: Code, score1: multiset<Peg>, score2: multiset<Peg>)
    ensures var delta := ScoreDelta(score1, score2);
      PairRuleAsWritten(move1, move2, score1, score2) != PairRule(move1, move2, score1, score2)
      <==> PairPattern(delta).Some? && delta.whiteDelta == 0 && !BothDistinct(move1, move2)
  {
  }

  lemma TripleRuleAgrees(move1: Code, move2: Code, score1: multiset<Peg>, score2: multiset<Peg>)
    ensures var delta := ScoreDelta(score1, score2);
      TripleRuleAsWritten(move1, move2, score1, score2) != TripleRule(move1, move2, score1, score2)
      <==> TriplePattern(delta).Some? && delta.whiteDelta == 0 && !BothDistinct(move1, move2)
  {
  }

  // ---------------------------------------------------------------------
  // The RED patterns as written, for guesses with a repeated colour.

  /** With secret 3550, guess 2500 scores two WHITEs and guess 3502 two
      WHITEs and a RED; the guesses differ at positions 0 and 3. */
  lemma PairScores(secret: Code, move1: Code, move2: Code)
    requires secret == [3, 5, 5, 0] && move1 == [2, 5, 0, 0] && move2 == [3, 5, 0, 2]
    ensures ScoredAs(multiset{White, White}, secret, move1)
    ensures ScoredAs(multiset{White, White, Red}, secret, move2)
  {
    var x1 := Inexact(secret, move1);
    CommonUnfold(move1, x1, secret, x1);
    assert CountTrue(Exact(secret, move1)) == 2;
    var x2 := Inexact(secret, move2);
    CommonUnfold(move2, x2, secret, x2);
    assert CountTrue(Exact(secret, move2)) == 2;
    assert Min(Occ(move2, x2, 0), Occ(secret, x2, 0)) == 1;
  }

  lemma PairListing(move1: Code, move2: Code)
    requires move1 == [2, 5, 0, 0] && move2 == [3, 5, 0, 2]
    ensures Ascending(Diff(move1, move2)) == [0, 3]
  {
    var d := Diff(move1, move2);
    assert d == {0, 3};
    assert AscendingFrom(d, 4) == [];
    assert AscendingFrom(d, 3) == [3];
    assert AscendingFrom(d, 1) == [3];
    assert AscendingFrom(d, 0) == [0, 3];
  }

  /** Neither 3 at position 0 nor 2 at position 3 of guess 3502 has its
      colour elsewhere in secret 3550, so no RED of {RED, IGNORE} fits. */
  lemma NoPairFit(combo: seq<Peg>)
    requires multiset(combo) == multiset{Red, Ignore}
    ensures !FitsOver([3, 5, 0, 2], combo, [0, 3], [3, 5, 5, 0])
  {
    var move: Code, s: Code := [3, 5, 0, 2], [3, 5, 5, 0];
    assert |combo| == |multiset(combo)| == 2;
    assert Red in combo by {
      assert Red in multiset(combo);
    }
    forall q: Pos ensures s[q] != 2 && (q != 0 ==> s[q] != 3) {
      assert q == 0 || q == 1 || q == 2 || q == 3;
    }
    if combo[0] == Red {
      assert !PegFits(move, combo[0], 0, s);
    } else {
      assert combo[1] == Red;
      assert !PegFits(move, combo[1], 3, s);
    }
  }

  /** The RED pattern {RED, IGNORE} on guess 3502 over positions 0 and 3
      fails on secret 3550. */
  lemma PairConstraintFails(move: Code, s: Code)
    requires move == [3, 5, 0, 2] && s == [3, 5, 5, 0]
    ensures !Eval(PositionsConstraint(move, multiset{Red, Ignore}, [0, 3]), s)
  {
    var pattern := multiset{Red, Ignore};
    forall combo: seq<Peg> | multiset(combo) == Pad(pattern, 2) && |combo| >= 2
      ensures !FitsOver(move, combo, [0, 3], s)
    {
      NoPairFit(combo);
    }
    NoFitFails(move, pattern, [0, 3], s);
  }

  /** A restricted constraint fails when no reordering of the padded score
      fits the secret. */
  lemma NoFitFails(move: Code, score: multiset<Peg>, ps: seq<Pos>, s: Code)
    requires forall combo: seq<Peg> ::
               multiset(combo) == Pad(score, |ps|) && |combo| >= |ps| ==> !FitsOver(move, combo, ps, s)
    ensures !Eval(PositionsConstraint(move, score, ps), s)
  {
  }

  /** A RED gain with no WHITE change lays the RED pattern against the
      second guess. */
  lemma RedGainAsWritten(move1: Code, move2: Code, delta: Delta, pattern: multiset<Peg>)
    requires delta.whiteDelta == 0 && delta.redDelta > 0
    ensures SpanRule(move1, move2, delta, Some(pattern), true)
         == [PositionsConstraint(move2, pattern, Ascending(Diff(move1, move2)))]
  {
  }

  /** A singleton store fails when its constraint does. */
  lemma FailsOne(c: Constraint, s: Code)
    requires !Eval(c, s)
    ensures !AllHold([c], s)
  {
    assert [c][0] == c;
  }

  /** The two-position rule as written excludes a secret that scored both
      guesses: its RED pattern for guesses 2500 and 3502 fails on 3550. */
  lemma PairRuleAsWrittenUnsound(secret: Code, move1: Code, move2: Code)
    requires secret == [3, 5, 5, 0] && move1 == [2, 5, 0, 0] && move2 == [3, 5, 0, 2]
    ensures ScoredAs(multiset{White, White}, secret, move1)
    ensures ScoredAs(multiset{White, White, Red}, secret, move2)
    ensures |Diff(move1, move2)| == 2
    ensures !AllHold(PairRuleAsWritten(move1, move2, multiset{White, White}, multiset{White, White, Red}), secret)
  {
    PairScores(secret, move1, move2);
    PairListing(move1, move2);
    assert ScoreDelta(multiset{White, White}, multiset{White, White, Red}) == Delta(0, 1);
    PairRuleAsWrittenFails(secret, move1, move2, multiset{White, White}, multiset{White, White, Red});
  }

  lemma PairRuleAsWrittenFails(secret: Code, move1: Code, move2: Code, score1: multiset<Peg>, score2: multiset<Peg>)
    requires secret == [3, 5, 5, 0] && move2 == [3, 5, 0, 2]
    requires Ascending(Diff(move1, move2)) == [0, 3]
    requires ScoreDelta(score1, score2) == Delta(0, 1)
    ensures !AllHold(PairRuleAsWritten(move1, move2, score1, score2), secret)
  {
    RedGainAsWritten(move1, move2, ScoreDelta(score1, score2), multiset{Red, Ignore});
    PairConstraintFails(move2, secret);
    FailsOne(PositionsConstraint(move2, multiset{Red, Ignore}, [0, 3]), secret);
  }

  /** With secret 0012, guess 2352 scores one WHITE and guess 2514 one WHITE
      and one RED; the guesses differ at positions 1, 2 and 3. */
  lemma TripleScores(secret: Code, move1: Code, move2: Code)
    requires secret == [0, 0, 1, 2] && move1 == [2, 3, 5, 2] && move2 == [2, 5, 1, 4]
    ensures ScoredAs(multiset{White}, secret, move1)
    ensures ScoredAs(multiset{White, Red}, secret, move2)
  {
    var x1 := Inexact(secret, move1);
    CommonUnfold(move1, x1, secret, x1);
    assert CountTrue(Exact(secret, move1)) == 1;
    var x2 := Inexact(secret, move2);
    CommonUnfold(move2, x2, secret, x2);
    assert CountTrue(Exact(secret, move2)) == 1;
    assert Min(Occ(move2, x2, 2), Occ(secret, x2, 2)) == 1;
  }

  lemma TripleListing(move1: Code, move2: Code)
    requires move1 == [2, 3, 5, 2] && move2 == [2, 5, 1, 4]
    ensures Ascending(Diff(move1, move2)) == [1, 2, 3]
  {
    var d := Diff(move1, move2);
    assert d == {1, 2, 3};
    assert AscendingFrom(d, 4) == [];
    assert AscendingFrom(d, 3) == [3];
    assert AscendingFrom(d, 2) == [2, 3];
    assert AscendingFrom(d, 1) == [1, 2, 3];
    assert AscendingFrom(d, 0) == [1, 2, 3];
  }

  /** None of 5, 1 and 4 at positions 1, 2 and 3 of guess 2514 has its
      colour elsewhere in secret 0012, so no RED of {RED, IGNORE, IGNORE}
      fits. */
  lemma NoTripleFit(combo: seq<Peg>)
    requires multiset(combo) == multiset{Red, Ignore, Ignore}
    ensures !FitsOver([2, 5, 1, 4], combo, [1, 2, 3], [0, 0, 1, 2])
  {
    var move: Code, s: Code := [2, 5, 1, 4], [0, 0, 1, 2];
    assert |combo| == |multiset(combo)| == 3;
    assert Red in combo by {
      assert Red in multiset(combo);
    }
    forall q: Pos ensures s[q] != 5 && s[q] != 4 && (q != 2 ==> s[q] != 1) {
      assert q == 0 || q == 1 || q == 2 || q == 3;
    }
    if combo[0] == Red {
      assert !PegFits(move, combo[0], 1, s);
    } else if combo[1] == Red {
      assert !PegFits(move, combo[1], 2, s);
    } else {
      assert combo[2] == Red;
      assert !PegFits(move, combo[2], 3, s);
    }
  }

  /** The RED pattern {RED, IGNORE, IGNORE} on guess 2514 over positions
      1, 2 and 3 fails on secret 0012. */
  lemma TripleConstraintFails(move: Code, s: Code)
    requires move == [2, 5, 1, 4] && s == [0, 0, 1, 2]
    ensures !Eval(PositionsConstraint(move, multiset{Red, Ignore, Ignore}, [1, 2, 3]), s)
  {
    var pattern := multiset{Red, Ignore, Ignore};
    forall combo: seq<Peg> | multiset(combo) == Pad(pattern, 3) && |combo| >= 3
      ensures !FitsOver(move, combo, [1, 2, 3], s)
    {
      NoTripleFit(combo);
    }
    NoFitFails(move, pattern, [1, 2, 3], s);
  }

  /** The three-position rule as written excludes a secret that scored
      both guesses: its RED pattern for guesses 2352 and 2514 fails on 0012. */
  lemma TripleRuleAsWrittenUnsound(secret: Code, move1: Code, move2: Code)
    requires secret == [0, 0, 1, 2] && move1 == [2, 3, 5, 2] && move2 == [2, 5, 1, 4]
    ensures ScoredAs(multiset{White}, secret, move1)
    ensures ScoredAs(multiset{White, Red}, secret, move2)
    ensures |Diff(move1, move2)| == 3
    ensures !AllHold(TripleRuleAsWritten(move1, move2, multiset{White}, multiset{White, Red}), secret)
  {
    TripleScores(secret, move1, move2);
    TripleListing(move1, move2);
    assert ScoreDelta(multiset{White}, multiset{White, Red}) == Delta(0, 1);
    TripleRuleAsWrittenFails(secret, move1, move2, multiset{White}, multiset{White, Red});
  }

  lemma TripleRuleAsWrittenFails(secret: Code, move1: Code, move2: Code, score1: multiset<Peg>, score2: multiset<Peg>)
    requires secret == [0, 0, 1, 2] && move2 == [2, 5, 1, 4]
    requires Ascending(Diff(move1, move2)) == [1, 2, 3]
    requires ScoreDelta(score1, score2) == Delta(0, 1)
    ensures !AllHold(TripleRuleAsWritten(move1, move2, score1, score2), secret)
  {
    RedGainAsWritten(move1, move2, ScoreDelta(score1, score2), multiset{Red, Ignore, Ignore});
    TripleConstraintFails(move2, secret);
    FailsOne(PositionsConstraint(move2, multiset{Red, Ignore, Ignore}, [1, 2, 3]), secret);
  }
}
