/** The older deduction rules of the test-side solver (TestScores): from two
    scored guesses that differ in one, two or three positions, constraints
    on what the secret holds there, built from the position-restricted score
    constraint. */
module OlderRules {
  import opened Wrappers
  import opened Codes
  import opened Pegs
  import opened Scoring
  import opened Constraints
  import opened Builders
  import opened Deltas
  import opened Rules
  import opened Restricted
  import Game

  // ---------------------------------------------------------------------
  // One differing position (reportScoreDeltaFor with an int position).

  /** doesNotAppearAnywhere: one "not here" constraint per position. */
  function Nowhere(colour: Colour): seq<Constraint> {
    [NoneAt(colour, 0), NoneAt(colour, 1), NoneAt(colour, 2), NoneAt(colour, 3)]
  }

  lemma NowhereMeaning(colour: Colour, s: Code)
    ensures AllHold(Nowhere(colour), s) <==> Absent(colour, s)
  {
    var r := Nowhere(colour);
    if AllHold(r, s) {
      forall p: Pos ensures s[p] != colour {
        assert Eval(r[p], s);
      }
    }
  }

  /** The colour is at a position other than pos. */
  predicate HeldElsewhere(colour: Colour, pos: Pos, s: Code) {
    exists q: Pos :: q != pos && s[q] == colour
  }

  /** eitherDontAppearAnywhereOrBothAppearIn: both colours are nowhere, or
      both are at one of the listed positions. */
  function EitherOr(col1: Colour, col2: Colour, ps: seq<Pos>): Constraint {
    Or([And(Nowhere(col1) + Nowhere(col2)), And([AppearsIn(col1, ps), AppearsIn(col2, ps)])])
  }

  lemma EitherOrMeaning(col1: Colour, col2: Colour, pos: Pos, s: Code)
    ensures Eval(EitherOr(col1, col2, Others(pos)), s) <==>
      (Absent(col1, s) && Absent(col2, s)) || (HeldElsewhere(col1, pos, s) && HeldElsewhere(col2, pos, s))
  {
    EitherOrSplit(col1, col2, Others(pos), s);
    NowhereMeaning(col1, s);
    NowhereMeaning(col2, s);
    ElsewhereMeaning(col1, pos, s);
    ElsewhereMeaning(col2, pos, s);
  }

  lemma EitherOrSplit(col1: Colour, col2: Colour, ps: seq<Pos>, s: Code)
    ensures Eval(EitherOr(col1, col2, ps), s) <==>
      (AllHold(Nowhere(col1), s) && AllHold(Nowhere(col2), s))
      || (Eval(AppearsIn(col1, ps), s) && Eval(AppearsIn(col2, ps), s))
  {
    var nowhere := Nowhere(col1) + Nowhere(col2);
    var both := [AppearsIn(col1, ps), AppearsIn(col2, ps)];
    assert [And(nowhere), And(both)][0] == And(nowhere);
    assert [And(nowhere), And(both)][1] == And(both);
    assert Eval(And(nowhere), s) <==> AllHold(nowhere, s);
    AllHoldConcat(Nowhere(col1), Nowhere(col2), s);
    EvalSmall(both[0], both[1], s);
  }

  /** The body of the one-position rule once the colours at d, the score
      delta and the distinctness test are known. */
  function OneRuleFor(oldCol: Colour, newCol: Colour, d: Pos, delta: Delta, distinct: bool): (r: seq<Constraint>)
    ensures forall s: Code :: AllHold(r, s) ==>
      && (delta.whiteDelta == 0 ==> s[d] != oldCol && s[d] != newCol)
      && (delta.whiteDelta == 1 ==> s[d] == newCol)
      && (delta.whiteDelta == -1 ==> s[d] == oldCol)
  {
    var rd := delta.redDelta;
    var wd := delta.whiteDelta;
    var r :=
      if wd == 0 then
        [NoneAt(oldCol, d), NoneAt(newCol, d)]
        + (if rd == 0 then (if distinct then [EitherOr(oldCol, newCol, Others(d))] else [])
           else if rd == 1 then [Elsewhere(newCol, d)]
           else if rd == -1 then [Elsewhere(oldCol, d)]
           else [])
      else if wd == 1 then
        [WhiteConstraint(newCol, d), NoneAt(oldCol, d)]
        + (if distinct then
             if rd == 0 then Nowhere(oldCol)
             else if rd == -1 then [Elsewhere(oldCol, d)]
             else []
           else [])
      else if wd == -1 then
        [WhiteConstraint(oldCol, d), NoneAt(newCol, d)]
        + (if distinct then
             if rd == 0 then Nowhere(newCol)
             else if rd == 1 then [Elsewhere(newCol, d)]
             else []
           else [])
      else [];
    assert forall s: Code :: AllHold(r, s) && wd in {-1, 0, 1} ==> Eval(r[0], s) && Eval(r[1], s);
    r
  }

  /** What the one-position rule demands of a secret, fact by fact: after no
      WHITE change neither colour is at d, and a RED change puts the colour
      that gained it elsewhere (for distinct guesses with equal scores,
      both colours are absent or both are elsewhere); after a WHITE gain
      or loss, the colour that gained it is at d, and for distinct guesses
      the other colour is absent or, after the opposite RED change,
      elsewhere. */
  predicate OneFits(oldCol: Colour, newCol: Colour, d: Pos, delta: Delta, distinct: bool, s: Code) {
    var rd := delta.redDelta;
    var wd := delta.whiteDelta;
    if wd == 0 then
      && s[d] != oldCol && s[d] != newCol
      && (rd == 0 && distinct ==>
            (Absent(oldCol, s) && Absent(newCol, s)) || (HeldElsewhere(oldCol, d, s) && HeldElsewhere(newCol, d, s)))
      && (rd == 1 ==> HeldElsewhere(newCol, d, s))
      && (rd == -1 ==> HeldElsewhere(oldCol, d, s))
    else if wd == 1 then
      && s[d] == newCol && s[d] != oldCol
      && (distinct && rd == 0 ==> Absent(oldCol, s))
      && (distinct && rd == -1 ==> HeldElsewhere(oldCol, d, s))
    else if wd == -1 then
      && s[d] == oldCol && s[d] != newCol
      && (distinct && rd == 0 ==> Absent(newCol, s))
      && (distinct && rd == 1 ==> HeldElsewhere(newCol, d, s))
    else true
  }

  /** The constraints of the one-position rule hold exactly when the secret
      meets what the rule demands. */
  lemma OneRuleForMeaning(oldCol: Colour, newCol: Colour, d: Pos, delta: Delta, distinct: bool)
    ensures forall s: Code :: AllHold(OneRuleFor(oldCol, newCol, d, delta, distinct), s)
                              <==> OneFits(oldCol, newCol, d, delta, distinct, s)
  {
    forall s: Code
      ensures AllHold(OneRuleFor(oldCol, newCol, d, delta, distinct), s) <==> OneFits(oldCol, newCol, d, delta, distinct, s)
    {
      OneRuleCase(oldCol, newCol, d, delta, distinct, s);
    }
  }

  lemma OneRuleCase(oldCol: Colour, newCol: Colour, d: Pos, delta: Delta, distinct: bool, s: Code)
    ensures AllHold(OneRuleFor(oldCol, newCol, d, delta, distinct), s) <==> OneFits(oldCol, newCol, d, delta, distinct, s)
  {
    var rd := delta.redDelta;
    var wd := delta.whiteDelta;
    var r := OneRuleFor(oldCol, newCol, d, delta, distinct);
    var either := EitherOr(oldCol, newCol, Others(d));
    EitherOrMeaning(oldCol, newCol, d, s);
    ElsewhereMeaning(oldCol, d, s);
    ElsewhereMeaning(newCol, d, s);
    NowhereMeaning(oldCol, s);
    NowhereMeaning(newCol, s);
    AllHoldSmall(either, either, s);
    AllHoldSmall(Elsewhere(oldCol, d), Elsewhere(oldCol, d), s);
    AllHoldSmall(Elsewhere(newCol, d), Elsewhere(newCol, d), s);
    if wd == 0 {
      var head := [NoneAt(oldCol, d), NoneAt(newCol, d)];
      AllHoldSmall(head[0], head[1], s);
      AllHoldConcat(head, r[2..], s);
      assert r == head + r[2..];
    } else if wd == 1 {
      var head := [WhiteConstraint(newCol, d), NoneAt(oldCol, d)];
      AllHoldSmall(head[0], head[1], s);
      AllHoldConcat(head, r[2..], s);
      assert r == head + r[2..];
    } else if wd == -1 {
      var head := [WhiteConstraint(oldCol, d), NoneAt(newCol, d)];
      AllHoldSmall(head[0], head[1], s);
      AllHoldConcat(head, r[2..], s);
      assert r == head + r[2..];
    }
  }

  /** reportScoreDeltaFor(move1, move2, diffPos): the one-position rule for
      the position d where the guesses differ. */
  function OneRule(move1: Code, move2: Code, d: Pos, score1: multiset<Peg>, score2: multiset<Peg>): (r: seq<Constraint>)
    ensures forall s: Code :: AllHold(r, s) <==>
      OneFits(move1[d], move2[d], d, ScoreDelta(score1, score2), BothDistinct(move1, move2), s)
  {
    OneRuleForMeaning(move1[d], move2[d], d, ScoreDelta(score1, score2), BothDistinct(move1, move2));
    OneRuleFor(move1[d], move2[d], d, ScoreDelta(score1, score2), BothDistinct(move1, move2))
  }

  /** A colour the secret holds, but not at d, is held elsewhere. */
  lemma ElsewhereOf(secret: Code, c: Colour, d: Pos)
    requires Occ(secret, Everywhere, c) >= 1 && secret[d] != c
    ensures Eval(Elsewhere(c, d), secret)
  {
    OccMember(secret, Everywhere, c);
    ElsewhereMeaning(c, d, secret);
  }

  lemma NowhereOf(secret: Code, c: Colour)
    requires Occ(secret, Everywhere, c) == 0
    ensures AllHold(Nowhere(c), secret)
  {
    AbsentOf(secret, c);
    NowhereMeaning(c, secret);
  }

  /** The constraints of the one-position rule that are asserted against a
      known secret before they are imposed: all but the either-or
      constraint, which eitherDontAppearAnywhereOrBothAppearIn imposes
      without an assertion. */
  function OneRuleAsserted(move1: Code, move2: Code, d: Pos, score1: multiset<Peg>, score2: multiset<Peg>)
    : (r: seq<Constraint>)
    ensures forall s: Code :: AllHold(r, s) ==>
      var wd := ScoreDelta(score1, score2).whiteDelta;
      && (wd == 0 ==> s[d] != move1[d] && s[d] != move2[d])
      && (wd == 1 ==> s[d] == move2[d])
      && (wd == -1 ==> s[d] == move1[d])
  {
    var delta := ScoreDelta(score1, score2);
    if delta.whiteDelta == 0 && delta.redDelta == 0 then
      var r := [NoneAt(move1[d], d), NoneAt(move2[d], d)];
      assert forall s: Code :: AllHold(r, s) ==> Eval(r[0], s) && Eval(r[1], s);
      r
    else OneRule(move1, move2, d, score1, score2)
  }

  /** The unasserted part: for guesses of four distinct colours whose
      scores are equal, both colours are absent or both are at one of the
      other three positions. */
  function OneRuleUnasserted(move1: Code, move2: Code, d: Pos, score1: multiset<Peg>, score2: multiset<Peg>)
    : (r: seq<Constraint>)
    ensures forall s: Code :: AllHold(r, s) <==>
      (ScoreDelta(score1, score2) == Delta(0, 0) && BothDistinct(move1, move2) ==>
        (Absent(move1[d], s) && Absent(move2[d], s))
        || (HeldElsewhere(move1[d], d, s) && HeldElsewhere(move2[d], d, s)))
  {
    var delta := ScoreDelta(score1, score2);
    if delta.whiteDelta == 0 && delta.redDelta == 0 && BothDistinct(move1, move2) then
      var c := EitherOr(move1[d], move2[d], Others(d));
      assert forall s: Code :: AllHold([c], s) <==> Eval(c, s) by {
        forall s: Code ensures AllHold([c], s) <==> Eval(c, s) {
          assert [c][0] == c;
        }
      }
      assert forall s: Code :: Eval(c, s) <==>
        (Absent(move1[d], s) && Absent(move2[d], s))
        || (HeldElsewhere(move1[d], d, s) && HeldElsewhere(move2[d], d, s)) by {
        forall s: Code ensures Eval(c, s) <==>
          (Absent(move1[d], s) && Absent(move2[d], s))
          || (HeldElsewhere(move1[d], d, s) && HeldElsewhere(move2[d], d, s)) {
          EitherOrMeaning(move1[d], move2[d], d, s);
        }
      }
      [c]
    else []
  }

  /** The one-position rule is its asserted part followed by its
      unasserted part, in the order the source imposes them. */
  lemma OneRuleSplit(move1: Code, move2: Code, d: Pos, score1: multiset<Peg>, score2: multiset<Peg>)
    ensures OneRule(move1, move2, d, score1, score2)
      == OneRuleAsserted(move1, move2, d, score1, score2) + OneRuleUnasserted(move1, move2, d, score1, score2)
  {
  }

  /** The older one-position rule never excludes the secret, whatever the
      colours of the guesses. */
  lemma OneRuleSound(secret: Code, move1: Code, move2: Code, d: Pos, score1: multiset<Peg>, score2: multiset<Peg>)
    requires Diff(move1, move2) == {d}
    requires ScoredAs(score1, secret, move1) && ScoredAs(score2, secret, move2)
    ensures AllHold(OneRule(move1, move2, d, score1, score2), secret)
  {
    var a := move1[d];
    var b := move2[d];
    Diff1Delta(secret, move1, move2, d, score1, score2);
    HeldOnce(move1, d);
    HeldOnce(move2, d);
    var distinct := BothDistinct(move1, move2);
    if distinct {
      DistinctOnce(move1, d);
      DistinctOnce(move2, d);
    }
    OneRuleForSound(secret, a, b, d, ScoreDelta(score1, score2), distinct,
                    Occ(move1, Everywhere, a), Occ(move2, Everywhere, b), Gains(secret, move2, b), Loses(secret, move1, a));
  }

  /** The case analysis of the one-position rule on the counts alone (as
      for Game's rule): `gain` and `lose` say whether the new colour gained
      and the old colour lost a shared peg. */
  lemma OneRuleForSound(secret: Code, a: Colour, b: Colour, d: Pos, delta: Delta, distinct: bool,
                        oldCount: nat, newCount: nat, gain: bool, lose: bool)
    requires a != b
    requires delta.whiteDelta == Ind(secret[d] == b) as int - Ind(secret[d] == a) as int
    requires delta.redDelta + delta.whiteDelta == Ind(gain) as int - Ind(lose) as int
    requires gain <==> newCount <= Occ(secret, Everywhere, b)
    requires lose <==> oldCount <= Occ(secret, Everywhere, a)
    requires 1 <= oldCount && 1 <= newCount
    requires distinct ==> oldCount == 1 && newCount == 1
    ensures AllHold(OneRuleFor(a, b, d, delta, distinct), secret)
  {
    HeldOnce(secret, d);
    var rd := delta.redDelta;
    if delta.whiteDelta == 0 {
      var tail := if rd == 0 then (if distinct then [EitherOr(a, b, Others(d))] else [])
                  else if rd == 1 then [Elsewhere(b, d)]
                  else if rd == -1 then [Elsewhere(a, d)]
                  else [];
      SameTail(secret, a, b, d, rd, distinct, oldCount, newCount, gain, lose);
      AllHoldConcat([NoneAt(a, d), NoneAt(b, d)], tail, secret);
    } else if delta.whiteDelta == 1 {
      var tail := if distinct then (if rd == 0 then Nowhere(a) else if rd == -1 then [Elsewhere(a, d)] else []) else [];
      ChangedTail(secret, a, b, d, rd, distinct, gain, lose);
      AllHoldConcat([WhiteConstraint(b, d), NoneAt(a, d)], tail, secret);
    } else if delta.whiteDelta == -1 {
      var tail := if distinct then (if rd == 0 then Nowhere(b) else if rd == 1 then [Elsewhere(b, d)] else []) else [];
      ChangedTail(secret, b, a, d, -rd, distinct, lose, gain);
      AllHoldConcat([WhiteConstraint(a, d), NoneAt(b, d)], tail, secret);
    }
  }

  /** No WHITE change at d (the secret holds neither colour there): a RED
      gained or lost puts the colour concerned elsewhere, and with distinct
      colours no RED change means both colours are nowhere or both
      elsewhere. */
  lemma SameTail(secret: Code, a: Colour, b: Colour, d: Pos, rd: int, distinct: bool,
                 oldCount: nat, newCount: nat, gain: bool, lose: bool)
    requires secret[d] != a && secret[d] != b
    requires rd == Ind(gain) as int - Ind(lose) as int
    requires gain <==> newCount <= Occ(secret, Everywhere, b)
    requires lose <==> oldCount <= Occ(secret, Everywhere, a)
    requires 1 <= oldCount && 1 <= newCount
    requires distinct ==> oldCount == 1 && newCount == 1
    ensures AllHold(if rd == 0 then (if distinct then [EitherOr(a, b, Others(d))] else [])
                    else if rd == 1 then [Elsewhere(b, d)]
                    else if rd == -1 then [Elsewhere(a, d)]
                    else [], secret)
  {
    if rd == 0 && distinct {
      EitherOrHolds(secret, a, b, d, gain);
    } else if rd == 1 {
      ElsewhereOf(secret, b, d);
    } else if rd == -1 {
      ElsewhereOf(secret, a, d);
    }
  }

  lemma EitherOrHolds(secret: Code, a: Colour, b: Colour, d: Pos, both: bool)
    requires secret[d] != a && secret[d] != b
    requires both <==> 1 <= Occ(secret, Everywhere, a)
    requires both <==> 1 <= Occ(secret, Everywhere, b)
    ensures Eval(EitherOr(a, b, Others(d)), secret)
  {
    EitherOrMeaning(a, b, d, secret);
    if both {
      HeldThere(secret, a, d);
      HeldThere(secret, b, d);
    } else {
      AbsentOf(secret, a);
      AbsentOf(secret, b);
    }
  }

  lemma AbsentOf(secret: Code, c: Colour)
    requires Occ(secret, Everywhere, c) == 0
    ensures Absent(c, secret)
  {
    forall p: Pos ensures secret[p] != c {
      assert Everywhere[p];
    }
  }

  lemma HeldThere(secret: Code, c: Colour, d: Pos)
    requires 1 <= Occ(secret, Everywhere, c) && secret[d] != c
    ensures HeldElsewhere(c, d, secret)
  {
    OccMember(secret, Everywhere, c);
  }

  /** The WHITE gained at d (the secret holds `got` there, not `left`): with
      distinct colours, no RED change means `left` is nowhere, and a RED
      gained means it is elsewhere. */
  lemma ChangedTail(secret: Code, left: Colour, got: Colour, d: Pos, rd: int, distinct: bool, gotIn: bool, leftIn: bool)
    requires secret[d] == got && got != left
    requires rd + 1 == Ind(gotIn) as int - Ind(leftIn) as int
    requires distinct ==> (gotIn <==> 1 <= Occ(secret, Everywhere, got)) && (leftIn <==> 1 <= Occ(secret, Everywhere, left))
    ensures AllHold(if distinct then (if rd == 0 then Nowhere(left) else if rd == -1 then [Elsewhere(left, d)] else []) else [], secret)
  {
    if distinct {
      HeldOnce(secret, d);
      if rd == 0 {
        NowhereOf(secret, left);
      } else if rd == -1 {
        ElsewhereOf(secret, left, d);
      }
    }
  }

  // ---------------------------------------------------------------------
  // Two and three differing positions (reportScoreDeltaFor with a set of
  // positions, and reportScoreDeltaFor3).

  /** The partial score the two-position rule lays against the differing
      positions: WHITEs for a WHITE change, otherwise REDs (with an IGNORE
      for a single RED), or nothing. */
  function PairPattern(delta: Delta): Option<multiset<Peg>> {
    var rd := delta.redDelta;
    var wd := delta.whiteDelta;
    if wd == 0 then
      if rd == 1 || rd == -1 then Some(multiset{Red, Ignore})
      else if rd == 2 || rd == -2 then Some(multiset{Red, Red})
      else None
    else if wd == 1 || wd == -1 then Some(multiset{White})
    else if wd == 2 || wd == -2 then Some(multiset{White, White})
    else None
  }

  /** The partial score of the three-position rule. */
  function TriplePattern(delta: Delta): Option<multiset<Peg>> {
    var rd := delta.redDelta;
    var wd := delta.whiteDelta;
    if wd == 0 then
      if rd == 1 || rd == -1 then Some(multiset{Red, Ignore, Ignore})
      else if rd == 2 || rd == -2 then Some(multiset{Red, Red, Ignore})
      else if rd == 3 || rd == -3 then Some(multiset{Red, Red, Red})
      else None
    else if wd == 1 || wd == -1 then Some(multiset{White, Ignore})
    else if wd == 2 || wd == -2 then Some(multiset{White, White})
    else if wd == 3 || wd == -3 then Some(multiset{White, White, White})
    else None
  }

  /** The guess the partial score is laid against: the second one when the
      delta is a gain (of WHITEs, or of REDs with no WHITE change), the first
      one otherwise. */
  function Toward(move1: Code, move2: Code, delta: Delta): Code {
    if delta.whiteDelta > 0 || (delta.whiteDelta == 0 && delta.redDelta > 0) then move2 else move1
  }

  /** The restricted score constraint of the pattern, over the differing
      positions in ascending order (the iteration order of the source's hash
      set of small integers). `redsAllowed` says whether the RED patterns,
      drawn when the WHITE count did not change, are imposed; the source
      always imposes them. */
  function SpanRule(move1: Code, move2: Code, delta: Delta, pattern: Option<multiset<Peg>>, redsAllowed: bool)
    : (r: seq<Constraint>)
    ensures |r| <= 1
    ensures pattern.None? ==> r == []
  {
    if pattern.None? || (delta.whiteDelta == 0 && !redsAllowed) then []
    else [PositionsConstraint(Toward(move1, move2, delta), pattern.value, Ascending(Diff(move1, move2)))]
  }

  /** What an imposed span rule demands of a secret: after a WHITE change,
      the guess the delta points toward has the secret's colour at one of
      the differing positions, and at all of them when the change is as
      large as the span; after a RED change with no WHITE change, that
      guess's colour at one of the differing positions is elsewhere in the
      secret. */
  predicate SpanFacts(move1: Code, move2: Code, delta: Delta, s: Code) {
    var t := Toward(move1, move2, delta);
    var d := Diff(move1, move2);
    && (delta.whiteDelta != 0 ==> exists p: Pos :: p in d && s[p] == t[p])
    && (delta.whiteDelta == |d| || -delta.whiteDelta == |d| ==> forall p: Pos :: p in d ==> s[p] == t[p])
    && (delta.whiteDelta == 0 ==> exists p: Pos :: p in d && HeldElsewhere(t[p], p, s))
  }

  /** A pattern that fits in the span, with one WHITE per WHITE changed and
      at least one RED when no WHITE changed. */
  predicate PatternFor(delta: Delta, pattern: multiset<Peg>, span: nat) {
    && |pattern| <= span
    && (pattern[White] == delta.whiteDelta || pattern[White] == -delta.whiteDelta)
    && (delta.whiteDelta == 0 ==> pattern[Red] >= 1)
  }

  lemma PairPatternFor(delta: Delta)
    ensures PairPattern(delta).Some? ==> PatternFor(delta, PairPattern(delta).value, 2)
  {
  }

  lemma TriplePatternFor(delta: Delta)
    ensures TriplePattern(delta).Some? ==> PatternFor(delta, TriplePattern(delta).value, 3)
  {
  }

  /** A combination of length n holding n copies of a peg is that peg
      throughout. */
  lemma {:induction false} AllOf(combo: seq<Peg>, x: Peg)
    requires multiset(combo)[x] == |combo|
    ensures forall k :: 0 <= k < |combo| ==> combo[k] == x
  {
    if |combo| > 0 {
      var last := combo[|combo| - 1];
      assert combo == combo[..|combo| - 1] + [last];
      assert multiset(combo) == multiset(combo[..|combo| - 1]) + multiset{last};
      assert multiset(combo[..|combo| - 1])[x] <= |combo[..|combo| - 1]|;
      AllOf(combo[..|combo| - 1], x);
      forall k | 0 <= k < |combo| ensures combo[k] == x {
        if k < |combo| - 1 {
          assert combo[k] == combo[..|combo| - 1][k];
        }
      }
    }
  }

  /** An imposed span rule whose pattern fits demands the span facts. */
  lemma SpanRuleFacts(move1: Code, move2: Code, delta: Delta, pattern: Option<multiset<Peg>>, redsAllowed: bool)
    ensures (pattern.Some? ==> PatternFor(delta, pattern.value, |Diff(move1, move2)|)) ==>
      forall s: Code :: AllHold(SpanRule(move1, move2, delta, pattern, redsAllowed), s)
                        && SpanRule(move1, move2, delta, pattern, redsAllowed) != []
                        ==> SpanFacts(move1, move2, delta, s)
  {
    var r := SpanRule(move1, move2, delta, pattern, redsAllowed);
    if pattern.Some? ==> PatternFor(delta, pattern.value, |Diff(move1, move2)|) {
      forall s: Code | AllHold(r, s) && r != [] ensures SpanFacts(move1, move2, delta, s) {
        assert Eval(r[0], s);
        SpanFactsOf(move1, move2, delta, pattern.value, s);
      }
    }
  }

  lemma SpanFactsOf(move1: Code, move2: Code, delta: Delta, pattern: multiset<Peg>, s: Code)
    requires PatternFor(delta, pattern, |Diff(move1, move2)|)
    requires Eval(PositionsConstraint(Toward(move1, move2, delta), pattern, Ascending(Diff(move1, move2))), s)
    ensures SpanFacts(move1, move2, delta, s)
  {
    var t := Toward(move1, move2, delta);
    var d := Diff(move1, move2);
    var ps := Ascending(d);
    var combo :| multiset(combo) == Pad(pattern, |ps|) && |combo| >= |ps| && FitsOver(t, combo, ps, s);
    assert |combo| == |multiset(combo)| == |ps|;
    if delta.whiteDelta != 0 {
      assert White in multiset(combo);
      var k :| 0 <= k < |combo| && combo[k] == White;
      assert PegFits(t, combo[k], ps[k], s);
      assert ps[k] in d;
    }
    if delta.whiteDelta == |d| || -delta.whiteDelta == |d| {
      AllOf(combo, White);
      forall p: Pos | p in d ensures s[p] == t[p] {
        assert p in ps;
        var k :| 0 <= k < |ps| && ps[k] == p;
        assert PegFits(t, combo[k], ps[k], s);
      }
    }
    if delta.whiteDelta == 0 {
      assert Red in multiset(combo);
      var k :| 0 <= k < |combo| && combo[k] == Red;
      assert PegFits(t, combo[k], ps[k], s);
      assert ps[k] in d;
      assert HeldElsewhere(t[ps[k]], ps[k], s);
    }
  }

  /** The two-position rule as the source writes it. */
  function PairRuleAsWritten(move1: Code, move2: Code, score1: multiset<Peg>, score2: multiset<Peg>): (r: seq<Constraint>)
    ensures |r| <= 1
    ensures ScoreDelta(score1, score2) == Delta(0, 0) ==> r == []
    ensures |Diff(move1, move2)| == 2 ==>
      forall s: Code :: AllHold(r, s) && r != [] ==> SpanFacts(move1, move2, ScoreDelta(score1, score2), s)
  {
    var delta := ScoreDelta(score1, score2);
    PairPatternFor(delta);
    SpanRuleFacts(move1, move2, delta, PairPattern(delta), true);
    SpanRule(move1, move2, delta, PairPattern(delta), true)
  }

  /** The two-position rule with its RED patterns kept to guesses of four
      distinct colours: it is the rule as written or nothing. */
  function PairRule(move1: Code, move2: Code, score1: multiset<Peg>, score2: multiset<Peg>): (r: seq<Constraint>)
    ensures r == PairRuleAsWritten(move1, move2, score1, score2) || r == []
    ensures BothDistinct(move1, move2) || ScoreDelta(score1, score2).whiteDelta != 0 ==>
      r == PairRuleAsWritten(move1, move2, score1, score2)
    ensures |Diff(move1, move2)| == 2 ==>
      forall s: Code :: AllHold(r, s) && r != [] ==> SpanFacts(move1, move2, ScoreDelta(score1, score2), s)
  {
    var delta := ScoreDelta(score1, score2);
    PairPatternFor(delta);
    SpanRuleFacts(move1, move2, delta, PairPattern(delta), BothDistinct(move1, move2));
    SpanRule(move1, move2, delta, PairPattern(delta), BothDistinct(move1, move2))
  }

  /** The three-position rule as the source writes it. */
  function TripleRuleAsWritten(move1: Code, move2: Code, score1: multiset<Peg>, score2: multiset<Peg>): (r: seq<Constraint>)
    ensures |r| <= 1
    ensures ScoreDelta(score1, score2) == Delta(0, 0) ==> r == []
    ensures |Diff(move1, move2)| == 3 ==>
      forall s: Code :: AllHold(r, s) && r != [] ==> SpanFacts(move1, move2, ScoreDelta(score1, score2), s)
  {
    var delta := ScoreDelta(score1, score2);
    TriplePatternFor(delta);
    SpanRuleFacts(move1, move2, delta, TriplePattern(delta), true);
    SpanRule(move1, move2, delta, TriplePattern(delta), true)
  }

  /** The three-position rule with its RED patterns kept to guesses of four
      distinct colours: it is the rule as written or nothing. */
  function TripleRule(move1: Code, move2: Code, score1: multiset<Peg>, score2: multiset<Peg>): (r: seq<Constraint>)
    ensures r == TripleRuleAsWritten(move1, move2, score1, score2) || r == []
    ensures BothDistinct(move1, move2) || ScoreDelta(score1, score2).whiteDelta != 0 ==>
      r == TripleRuleAsWritten(move1, move2, score1, score2)
    ensures |Diff(move1, move2)| == 3 ==>
      forall s: Code :: AllHold(r, s) && r != [] ==> SpanFacts(move1, move2, ScoreDelta(score1, score2), s)
  {
    var delta := ScoreDelta(score1, score2);
    TriplePatternFor(delta);
    SpanRuleFacts(move1, move2, delta, TriplePattern(delta), BothDistinct(move1, move2));
    SpanRule(move1, move2, delta, TriplePattern(delta), BothDistinct(move1, move2))
  }

  // ---------------------------------------------------------------------
  // Counting over listed positions.

  /** How many of the listed positions the mask selects. */
  function CountOver(ps: seq<Pos>, q: Mask): (n: nat)
    ensures n <= |ps|
  {
    if |ps| == 0 then 0 else Ind(q[ps[0]]) + CountOver(ps[1..], q)
  }

  /** How many positions of d the mask selects. */
  function InCount(d: set<Pos>, q: Mask): nat {
    Ind(0 in d && q[0]) + Ind(1 in d && q[1]) + Ind(2 in d && q[2]) + Ind(3 in d && q[3])
  }

  /** Counting over the ascending list of d is counting the selected
      positions of d. */
  lemma CountOverAscending(d: set<Pos>, q: Mask)
    ensures CountOver(Ascending(d), q) == InCount(d, q)
  {
    var ps := Ascending(d);
    assert forall i, j :: 0 <= i < j < |ps| ==> ps[i] != ps[j];
    CountOverListing(ps, d, q);
  }

  /** Counting over any repetition-free listing of d. */
  lemma {:induction false} CountOverListing(ps: seq<Pos>, d: set<Pos>, q: Mask)
    requires forall p: Pos :: p in ps <==> p in d
    requires forall i, j :: 0 <= i < j < |ps| ==> ps[i] != ps[j]
    ensures CountOver(ps, q) == InCount(d, q)
    decreases |ps|
  {
    if |ps| == 0 {
      InCountEmpty(d, q);
    } else {
      var h, rest := ps[0], ps[1..];
      forall p: Pos ensures p in rest <==> p in d - {h} {
        if p in rest {
          var i :| 0 <= i < |rest| && rest[i] == p;
          assert ps[i + 1] == p;
        }
        if p in d - {h} {
          assert p in ps;
          var i :| 0 <= i < |ps| && ps[i] == p;
          assert rest[i - 1] == p;
        }
      }
      assert forall i, j :: 0 <= i < j < |rest| ==> rest[i] != rest[j] by {
        forall i, j | 0 <= i < j < |rest| ensures rest[i] != rest[j] {
          assert rest[i] == ps[i + 1] && rest[j] == ps[j + 1];
        }
      }
      CountOverListing(rest, d - {h}, q);
      InCountRemove(d, h, q);
    }
  }

  lemma InCountEmpty(d: set<Pos>, q: Mask)
    requires forall p: Pos :: p !in d
    ensures InCount(d, q) == 0
  {
    assert 0 !in d && 1 !in d && 2 !in d && 3 !in d;
  }

  lemma InCountRemove(d: set<Pos>, h: Pos, q: Mask)
    requires h in d
    ensures InCount(d, q) == Ind(q[h]) + InCount(d - {h}, q)
  {
    IndRemove(0 in d, h == 0, q[0]);
    IndRemove(1 in d, h == 1, q[1]);
    IndRemove(2 in d, h == 2, q[2]);
    IndRemove(3 in d, h == 3, q[3]);
  }

  lemma IndRemove(inD: bool, isH: bool, x: bool)
    ensures Ind(inD && x) == Ind(isH && inD && x) + Ind(inD && !isH && x)
  {
  }

  /** Two masks that never both select a listed position select at most
      the positions listed. */
  lemma {:induction false} CountOverDisjoint(ps: seq<Pos>, q1: Mask, q2: Mask)
    requires forall k :: 0 <= k < |ps| ==> !(q1[ps[k]] && q2[ps[k]])
    ensures CountOver(ps, q1) + CountOver(ps, q2) <= |ps|
  {
    if |ps| > 0 {
      assert forall k :: 0 <= k < |ps| - 1 ==> ps[1..][k] == ps[k + 1];
      CountOverDisjoint(ps[1..], q1, q2);
    }
  }

  // ---------------------------------------------------------------------
  // Laying a pattern against the positions.

  /** A multiset of k pegs of kind x, b NONE and i IGNORE. */
  function Layout(x: Peg, k: nat, b: nat, i: nat): multiset<Peg> {
    multiset{}[x := k][Blank := b][Ignore := i]
  }

  /** A reordering of the pattern laid against ps: x at the first k
      positions the mask selects, NONE at the first b it does not, IGNORE
      elsewhere. */
  function Mark(ps: seq<Pos>, q: Mask, x: Peg, k: nat, b: nat): (r: seq<Peg>)
    ensures |r| == |ps|
    decreases |ps|
  {
    if |ps| == 0 then []
    else if q[ps[0]] && k > 0 then [x] + Mark(ps[1..], q, x, k - 1, b)
    else if !q[ps[0]] && b > 0 then [Blank] + Mark(ps[1..], q, x, k, b - 1)
    else [Ignore] + Mark(ps[1..], q, x, k, b)
  }

  /** The other scoring peg kind. */
  function Rival(x: Peg): Peg {
    if x == White then Red else White
  }

  /** A multiset of pegs with k of kind x, b NONE, i IGNORE and none of
      the other kind. */
  predicate HasShape(m: multiset<Peg>, x: Peg, k: nat, b: nat, i: nat) {
    m[x] == k && m[Blank] == b && m[Ignore] == i && m[Rival(x)] == 0
  }

  lemma ShapeEqual(m: multiset<Peg>, x: Peg, k: nat, b: nat, i: nat)
    requires x == White || x == Red
    requires HasShape(m, x, k, b, i)
    ensures m == Layout(x, k, b, i)
  {
    forall p: Peg ensures m[p] == Layout(x, k, b, i)[p] {
      PegKindsComplete(p);
    }
  }

  /** How many pegs of kind y a sequence holds. */
  function CountPeg(r: seq<Peg>, y: Peg): nat {
    if |r| == 0 then 0 else Ind(r[0] == y) + CountPeg(r[1..], y)
  }

  lemma {:induction false} CountPegMultiset(r: seq<Peg>, y: Peg)
    ensures multiset(r)[y] == CountPeg(r, y)
  {
    if |r| > 0 {
      assert r == [r[0]] + r[1..];
      assert multiset(r) == multiset{r[0]} + multiset(r[1..]);
      CountPegMultiset(r[1..], y);
    }
  }

  /** Within the available room, the marking is a reordering of the shape. */
  lemma MarkShape(ps: seq<Pos>, q: Mask, x: Peg, k: nat, b: nat)
    requires x == White || x == Red
    requires k <= CountOver(ps, q) && b <= |ps| - CountOver(ps, q)
    ensures HasShape(multiset(Mark(ps, q, x, k, b)), x, k, b, |ps| - k - b)
  {
    var r := Mark(ps, q, x, k, b);
    MarkCounts(ps, q, x, k, b);
    CountPegMultiset(r, x);
    CountPegMultiset(r, Blank);
    CountPegMultiset(r, Ignore);
    CountPegMultiset(r, Rival(x));
  }

  lemma {:induction false} MarkCounts(ps: seq<Pos>, q: Mask, x: Peg, k: nat, b: nat)
    requires x == White || x == Red
    requires k <= CountOver(ps, q) && b <= |ps| - CountOver(ps, q)
    ensures var r := Mark(ps, q, x, k, b);
      && CountPeg(r, x) == k && CountPeg(r, Blank) == b
      && CountPeg(r, Ignore) == |ps| - k - b && CountPeg(r, Rival(x)) == 0
    decreases |ps|
  {
    if |ps| > 0 {
      var c := CountOver(ps[1..], q);
      assert CountOver(ps, q) == Ind(q[ps[0]]) + c;
      var r := Mark(ps, q, x, k, b);
      var k' := if q[ps[0]] && k > 0 then k - 1 else k;
      var b' := if !(q[ps[0]] && k > 0) && !q[ps[0]] && b > 0 then b - 1 else b;
      MarkCounts(ps[1..], q, x, k', b');
      assert r[1..] == Mark(ps[1..], q, x, k', b');
    }
  }

  /** The marking puts x only where the mask selects and NONE only where
      it does not. */
  lemma {:induction false} MarkPlaces(ps: seq<Pos>, q: Mask, x: Peg, k: nat, b: nat)
    requires x == White || x == Red
    ensures var r := Mark(ps, q, x, k, b);
      forall j :: 0 <= j < |ps| ==> (r[j] == x ==> q[ps[j]]) && (r[j] == Blank ==> !q[ps[j]])
                                    && (r[j] == x || r[j] == Blank || r[j] == Ignore)
    decreases |ps|
  {
    if |ps| > 0 {
      var r := Mark(ps, q, x, k, b);
      var k' := if q[ps[0]] && k > 0 then k - 1 else k;
      var b' := if !(q[ps[0]] && k > 0) && !q[ps[0]] && b > 0 then b - 1 else b;
      var rest := Mark(ps[1..], q, x, k', b');
      assert r[1..] == rest;
      MarkPlaces(ps[1..], q, x, k', b');
      forall j | 0 < j < |ps|
        ensures (r[j] == x ==> q[ps[j]]) && (r[j] == Blank ==> !q[ps[j]]) && (r[j] == x || r[j] == Blank || r[j] == Ignore)
      {
        assert r[j] == rest[j - 1] && ps[j] == ps[1..][j - 1];
      }
    }
  }

  /** A pattern of k pegs of kind x, b NONE and IGNORE for the rest, padded
      to the listed positions, holds of the secret when the mask selects at
      least k listed positions and leaves at least b unselected, where an
      x-peg fits every selected position and a NONE every other one. */
  lemma ShapeSound(move: Code, pattern: multiset<Peg>, ps: seq<Pos>, s: Code, q: Mask, x: Peg, k: nat, b: nat, i: nat)
    requires x == White || x == Red
    requires k <= CountOver(ps, q) && b <= |ps| - CountOver(ps, q) && k + b + i == |ps|
    requires Pad(pattern, |ps|) == Layout(x, k, b, i)
    requires forall p: Pos :: q[p] ==> PegFits(move, x, p, s)
    requires b > 0 ==> forall p: Pos :: !q[p] ==> s[p] != move[p]
    ensures Eval(PositionsConstraint(move, pattern, ps), s)
  {
    var r := Mark(ps, q, x, k, b);
    MarkShape(ps, q, x, k, b);
    ShapeEqual(multiset(r), x, k, b, i);
    MarkPlaces(ps, q, x, k, b);
    forall j | 0 <= j < |ps| ensures PegFits(move, r[j], ps[j], s) {
      if r[j] == Blank {
        assert r[j] in multiset(r);
      }
    }
    FitsPositions(move, pattern, ps, r, s);
  }

  // ---------------------------------------------------------------------
  // What the scores say about the differing positions.

  /** Across the differing positions, the WHITE delta is how many of them
      the second guess matches exactly less how many the first does, and no
      position is matched by both. */
  lemma WhiteSplit(secret: Code, m1: Code, m2: Code)
    ensures var ps := Ascending(Diff(m1, m2));
      && CountTrue(Exact(secret, m2)) as int - CountTrue(Exact(secret, m1)) as int
         == CountOver(ps, Exact(secret, m2)) as int - CountOver(ps, Exact(secret, m1)) as int
      && CountOver(ps, Exact(secret, m2)) + CountOver(ps, Exact(secret, m1)) <= |ps|
  {
    var d := Diff(m1, m2);
    var ps := Ascending(d);
    var e1, e2 := Exact(secret, m1), Exact(secret, m2);
    assert forall p: Pos :: (p !in d ==> e1[p] == e2[p]) && (p in d ==> !(e1[p] && e2[p])) by {
      forall p: Pos ensures (p !in d ==> e1[p] == e2[p]) && (p in d ==> !(e1[p] && e2[p])) {
        ExactAtP(secret, m1, p);
        ExactAtP(secret, m2, p);
      }
    }
    MasksOutside(d, e2, e1);
    CountOverAscending(d, e2);
    CountOverAscending(d, e1);
    forall k | 0 <= k < |ps| ensures !(e2[ps[k]] && e1[ps[k]]) {
      assert ps[k] in d;
    }
    CountOverDisjoint(ps, e2, e1);
  }

  lemma ExactAtP(secret: Code, m: Code, p: Pos)
    ensures Exact(secret, m)[p] <==> m[p] == secret[p]
  {
  }

  /** Masks that agree outside d differ in total as they differ on d. */
  lemma MasksOutside(d: set<Pos>, a: Mask, b: Mask)
    requires forall p: Pos :: p !in d ==> a[p] == b[p]
    ensures CountTrue(a) as int - CountTrue(b) as int == InCount(d, a) as int - InCount(d, b) as int
  {
    IndOutside(0 in d, a[0], b[0]);
    IndOutside(1 in d, a[1], b[1]);
    IndOutside(2 in d, a[2], b[2]);
    IndOutside(3 in d, a[3], b[3]);
  }

  lemma IndOutside(inD: bool, x: bool, y: bool)
    requires !inD ==> x == y
    ensures (if x then 1 else 0) - (if y then 1 else 0) == Ind(inD && x) as int - Ind(inD && y) as int
  {
  }

  /** The positions where a RED peg of the restricted constraint fits: the
      guess's colour there is at some other position of the secret. */
  function RedMask(s: Code, m: Code): Mask {
    seq(NumPositions, p requires 0 <= p < NumPositions => PegFits(m, Red, p, s))
  }

  /** The secret holds colour c. */
  predicate Present(s: Code, c: Colour) {
    1 <= Occ(s, Everywhere, c)
  }

  /** How many positions of m hold a colour from c on that the secret
      holds. */
  function PresentFrom(s: Code, m: Code, c: nat): nat {
    Ind(m[0] >= c && Present(s, m[0])) + Ind(m[1] >= c && Present(s, m[1]))
    + Ind(m[2] >= c && Present(s, m[2])) + Ind(m[3] >= c && Present(s, m[3]))
  }

  /** A guess of four distinct colours shares with the secret one peg per
      colour of the guess the secret holds. */
  lemma {:induction false} DistinctCommon(s: Code, m: Code, c: nat)
    requires PairwiseDistinct(m) && c <= NumColours
    ensures Common(m, Everywhere, s, Everywhere, c) == PresentFrom(s, m, c)
    decreases NumColours - c
  {
    if c < NumColours {
      DistinctCommon(s, m, c + 1);
      ColourStep(s, m, c);
    }
  }

  /** Colour c adds one shared peg exactly when the guess and the secret
      both hold it. */
  lemma ColourStep(s: Code, m: Code, c: Colour)
    requires PairwiseDistinct(m)
    ensures Min(Occ(m, Everywhere, c), Occ(s, Everywhere, c)) == PresentFrom(s, m, c) - PresentFrom(s, m, c + 1)
  {
    assert Occ(m, Everywhere, c) <= 1;
  }

  /** Position by position: the second guess's colour counts as shared and
      the first's does not only where the guesses differ and the second
      guess's colour is elsewhere in the secret, or where the exact matches
      change. */
  lemma PositionBound(s: Code, m1: Code, m2: Code, p: Pos)
    ensures Ind(Present(s, m2[p])) as int - Ind(Present(s, m1[p])) as int
         <= Ind(m1[p] != m2[p] && PegFits(m2, Red, p, s)) as int + ExactAt(s, m2, p) as int - ExactAt(s, m1, p) as int
  {
    OccMember(s, Everywhere, m2[p]);
    OccMember(s, Everywhere, m1[p]);
    if m1[p] != m2[p] && Present(s, m2[p]) && s[p] != m2[p] {
      var j: Pos :| Everywhere[j] && s[j] == m2[p];
      assert j != p;
    }
    if s[p] == m1[p] {
      assert Everywhere[p];
    }
    if s[p] == m2[p] {
      assert Everywhere[p];
    }
  }

  /** With four distinct colours in both guesses and no WHITE change, every
      RED gained needs a differing position where the second guess's colour
      is elsewhere in the secret. */
  lemma RedBound(secret: Code, m1: Code, m2: Code)
    requires BothDistinct(m1, m2)
    requires CountTrue(Exact(secret, m1)) == CountTrue(Exact(secret, m2))
    ensures RedReference(secret, m2) as int - RedReference(secret, m1) as int
         <= CountOver(Ascending(Diff(m1, m2)), RedMask(secret, m2))
  {
    DistinctColoursIff(m1);
    DistinctColoursIff(m2);
    TotalDistinct(secret, m1);
    TotalDistinct(secret, m2);
    RedGainIsTotalGain(secret, m1, m2);
    PresentGain(secret, m1, m2);
    CountOverAscending(Diff(m1, m2), RedMask(secret, m2));
  }

  /** For a guess of distinct colours, the shared colours are the guess
      positions whose colour the secret holds. */
  lemma TotalDistinct(s: Code, m: Code)
    requires PairwiseDistinct(m)
    ensures TotalReference(s, m) == PresentFrom(s, m, 0)
  {
    DistinctCommon(s, m, 0);
  }

  /** With the exact matches unchanged, the REDs change as the shared
      colours do. */
  lemma RedGainIsTotalGain(s: Code, m1: Code, m2: Code)
    requires CountTrue(Exact(s, m1)) == CountTrue(Exact(s, m2))
    ensures RedReference(s, m2) as int - RedReference(s, m1) as int
         == TotalReference(s, m2) as int - TotalReference(s, m1) as int
  {
    SharedSplit(s, m1);
    SharedSplit(s, m2);
  }

  /** Summed over the positions: the held colours gained are bounded by the
      differing positions whose new colour is elsewhere in the secret plus
      the exact matches gained. */
  lemma PresentGain(s: Code, m1: Code, m2: Code)
    ensures PresentFrom(s, m2, 0) as int - PresentFrom(s, m1, 0) as int
         <= InCount(Diff(m1, m2), RedMask(s, m2)) as int
            + CountTrue(Exact(s, m2)) as int - CountTrue(Exact(s, m1)) as int
  {
    var q := RedMask(s, m2);
    PositionBound(s, m1, m2, 0);
    PositionBound(s, m1, m2, 1);
    PositionBound(s, m1, m2, 2);
    PositionBound(s, m1, m2, 3);
    PresentSum(s, m1);
    PresentSum(s, m2);
    ExactSum(s, m1);
    ExactSum(s, m2);
    DiffCount(m1, m2, q);
    SumBound(Ind(Present(s, m2[0])), Ind(Present(s, m2[1])), Ind(Present(s, m2[2])), Ind(Present(s, m2[3])),
             Ind(Present(s, m1[0])), Ind(Present(s, m1[1])), Ind(Present(s, m1[2])), Ind(Present(s, m1[3])),
             Ind(m1[0] != m2[0] && q[0]), Ind(m1[1] != m2[1] && q[1]), Ind(m1[2] != m2[2] && q[2]), Ind(m1[3] != m2[3] && q[3]),
             ExactAt(s, m2, 0), ExactAt(s, m2, 1), ExactAt(s, m2, 2), ExactAt(s, m2, 3),
             ExactAt(s, m1, 0), ExactAt(s, m1, 1), ExactAt(s, m1, 2), ExactAt(s, m1, 3));
  }

  lemma PresentSum(s: Code, m: Code)
    ensures PresentFrom(s, m, 0) == Ind(Present(s, m[0])) + Ind(Present(s, m[1])) + Ind(Present(s, m[2])) + Ind(Present(s, m[3]))
  {
  }

  lemma ExactSum(s: Code, m: Code)
    ensures CountTrue(Exact(s, m)) == ExactAt(s, m, 0) + ExactAt(s, m, 1) + ExactAt(s, m, 2) + ExactAt(s, m, 3)
  {
  }

  lemma DiffCount(m1: Code, m2: Code, q: Mask)
    ensures InCount(Diff(m1, m2), q)
         == Ind(m1[0] != m2[0] && q[0]) + Ind(m1[1] != m2[1] && q[1]) + Ind(m1[2] != m2[2] && q[2]) + Ind(m1[3] != m2[3] && q[3])
  {
  }

  /** Four bounded differences sum to a bounded difference. */
  lemma SumBound(a0: int, a1: int, a2: int, a3: int, b0: int, b1: int, b2: int, b3: int,
                 u0: int, u1: int, u2: int, u3: int, e0: int, e1: int, e2: int, e3: int,
                 f0: int, f1: int, f2: int, f3: int)
    requires a0 - b0 <= u0 + e0 - f0 && a1 - b1 <= u1 + e1 - f1
    requires a2 - b2 <= u2 + e2 - f2 && a3 - b3 <= u3 + e3 - f3
    ensures (a0 + a1 + a2 + a3) - (b0 + b1 + b2 + b3) <= (u0 + u1 + u2 + u3) + (e0 + e1 + e2 + e3) - (f0 + f1 + f2 + f3)
  {
  }
}
