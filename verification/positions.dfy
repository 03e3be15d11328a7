/** The score constraint of the older, test-side solver (TestScores): a
    score laid against a chosen list of guess positions rather than all
    four. Its pegs differ from Game's: a RED only asks for the colour at
    some other position, a NONE only rules the colour out of its own
    position, and an IGNORE peg constrains nothing. */
module Restricted {
  import opened Codes
  import opened Pegs
  import opened Scoring
  import opened Constraints
  import opened Builders
  import opened ScoreSoundness

  /** ALL_POS: the four positions in order. */
  const AllPositions: seq<Pos> := [0, 1, 2, 3]

  /** The three positions other than pos, in ascending order (the
      `diffPosNeg` tree set of the one-position rule). */
  function Others(pos: Pos): seq<Pos> {
    Ascending(AllPos - {pos})
  }

  /** appearsInConstraint: the colour is at one of the listed positions. */
  function AppearsIn(colour: Colour, ps: seq<Pos>): Constraint {
    Or(AtomsAt(colour, ps))
  }

  /** TestScores.redConstraint: the colour is at one of the other three
      positions (an Or over them, in ascending order). */
  function Elsewhere(colour: Colour, pos: Pos): Constraint {
    AppearsIn(colour, Others(pos))
  }

  lemma ElsewhereMeaning(colour: Colour, pos: Pos, s: Code)
    ensures Eval(Elsewhere(colour, pos), s) <==> exists q: Pos :: q != pos && s[q] == colour
  {
    CandidatesMeaning(colour, pos, AllPos, s);
    ElsewhereAnywhere(colour, pos, s);
  }

  lemma CandidatesMeaning(colour: Colour, pos: Pos, possible: set<Pos>, s: Code)
    ensures Eval(Or(AtomsAt(colour, Ascending(possible - {pos}))), s) <==> ElsewhereIn(colour, pos, possible, s)
  {
    var ps := Ascending(possible - {pos});
    AtomsMeaning(colour, ps, s);
    if i :| 0 <= i < |ps| && s[ps[i]] == colour {
      assert ps[i] in possible - {pos};
    }
    if q: Pos :| q in possible && q != pos && s[q] == colour {
      assert q in ps;
      var i :| 0 <= i < |ps| && ps[i] == q;
    }
  }

  /** The constraints one peg of a combination adds for the guess position
      it is laid against. */
  function PegConstraints(move: Code, peg: Peg, pos: Pos): seq<Constraint> {
    match peg
    case White => [WhiteConstraint(move[pos], pos)]
    case Red => [Elsewhere(move[pos], pos)]
    case Blank => [NoneAt(move[pos], pos)]
    case Ignore => []
  }

  /** What one peg says about the secret. */
  predicate PegFits(move: Code, peg: Peg, pos: Pos, s: Code) {
    match peg
    case White => s[pos] == move[pos]
    case Red => exists q: Pos :: q != pos && s[q] == move[pos]
    case Blank => s[pos] != move[pos]
    case Ignore => true
  }

  lemma PegMeaning(move: Code, peg: Peg, pos: Pos, s: Code)
    ensures Eval(And(PegConstraints(move, peg, pos)), s) <==> PegFits(move, peg, pos, s)
  {
    match peg
    case White =>
      EvalSmall(WhiteConstraint(move[pos], pos), WhiteConstraint(move[pos], pos), s);
    case Red =>
      ElsewhereMeaning(move[pos], pos, s);
      EvalSmall(Elsewhere(move[pos], pos), Elsewhere(move[pos], pos), s);
    case Blank =>
      EvalSmall(NoneAt(move[pos], pos), NoneAt(move[pos], pos), s);
    case Ignore =>
      EmptyConnectives(s);
  }

  /** The conjunction for one combination: its k-th peg laid against the
      k-th listed position (the `offset` walk of the source). */
  function ComboOver(move: Code, combo: seq<Peg>, ps: seq<Pos>): seq<Constraint>
    requires |combo| >= |ps|
    decreases |ps|
  {
    if |ps| == 0 then []
    else PegConstraints(move, combo[0], ps[0]) + ComboOver(move, combo[1..], ps[1..])
  }

  /** Every peg of the combination fits the secret at its position. */
  predicate FitsOver(move: Code, combo: seq<Peg>, ps: seq<Pos>, s: Code)
    requires |combo| >= |ps|
  {
    forall k :: 0 <= k < |ps| ==> PegFits(move, combo[k], ps[k], s)
  }

  lemma {:induction false} ComboOverMeaning(move: Code, combo: seq<Peg>, ps: seq<Pos>, s: Code)
    requires |combo| >= |ps|
    ensures Eval(And(ComboOver(move, combo, ps)), s) <==> FitsOver(move, combo, ps, s)
  {
    if |ps| == 0 {
      EmptyConnectives(s);
    } else {
      var head := PegConstraints(move, combo[0], ps[0]);
      var tail := ComboOver(move, combo[1..], ps[1..]);
      ComboOverMeaning(move, combo[1..], ps[1..], s);
      PegMeaning(move, combo[0], ps[0], s);
      AndConcat(head, tail, s);
      if PegFits(move, combo[0], ps[0], s) && FitsOver(move, combo[1..], ps[1..], s) {
        forall k | 0 <= k < |ps| ensures PegFits(move, combo[k], ps[k], s) {
          if k > 0 {
            assert combo[1..][k - 1] == combo[k] && ps[1..][k - 1] == ps[k];
          }
        }
      }
      if FitsOver(move, combo, ps, s) {
        forall k | 0 <= k < |ps| - 1 ensures PegFits(move, combo[1..][k], ps[1..][k], s) {
          assert combo[1..][k] == combo[k + 1] && ps[1..][k] == ps[k + 1];
        }
        assert PegFits(move, combo[0], ps[0], s);
      }
    }
  }

  /** Padding to n pegs leaves at least n. */
  lemma PadSize(m: multiset<Peg>, n: nat)
    ensures |Pad(m, n)| >= n
  {
  }

  /** TestScores.scoreConstraint(move, score, positions): it holds exactly
      when some reordering of the score, padded with NONE up to the number
      of positions, fits the secret peg by peg at the listed positions. */
  function PositionsConstraint(move: Code, score: multiset<Peg>, ps: seq<Pos>): (r: Constraint)
    ensures forall s: Code :: Eval(r, s) <==>
      exists combo: seq<Peg> :: multiset(combo) == Pad(score, |ps|) && |combo| >= |ps|
                                && FitsOver(move, combo, ps, s)
  {
    ReorderingsMeaning(move, score, ps);
    Reorderings(move, score, ps)
  }

  /** The constraint scoreConstraint builds: pad the score with NONE up to
      the number of positions, then the Or over its distinct reorderings of
      the conjunction each one stands for. */
  function Reorderings(move: Code, score: multiset<Peg>, ps: seq<Pos>): Constraint {
    var padded := Pad(score, |ps|);
    var combos := Combinations(padded);
    CombinationsLength(padded);
    PadSize(score, |ps|);
    Or(seq(|combos|, i requires 0 <= i < |combos| => And(ComboOver(move, combos[i], ps))))
  }

  /** A reordering of the padded score that fits the secret makes the
      constraint hold. */
  lemma FitsPositions(move: Code, score: multiset<Peg>, ps: seq<Pos>, combo: seq<Peg>, s: Code)
    requires multiset(combo) == Pad(score, |ps|) && |combo| >= |ps|
    requires FitsOver(move, combo, ps, s)
    ensures Eval(Reorderings(move, score, ps), s)
  {
    var padded := Pad(score, |ps|);
    var c := Reorderings(move, score, ps);
    var combos := Combinations(padded);
    CombinationsLength(padded);
    CombinationsExact(padded, combo);
    var i :| 0 <= i < |combos| && combos[i] == combo;
    ComboOverMeaning(move, combo, ps, s);
    assert Eval(c.any[i], s);
  }

  /** When the constraint holds, some reordering of the padded score fits
      the secret. */
  lemma PositionsFit(move: Code, score: multiset<Peg>, ps: seq<Pos>, s: Code)
    requires Eval(Reorderings(move, score, ps), s)
    ensures exists combo: seq<Peg> :: multiset(combo) == Pad(score, |ps|) && |combo| >= |ps|
                                      && FitsOver(move, combo, ps, s)
  {
    var padded := Pad(score, |ps|);
    var c := Reorderings(move, score, ps);
    var combos := Combinations(padded);
    CombinationsLength(padded);
    PadSize(score, |ps|);
    var i :| 0 <= i < |combos| && Eval(c.any[i], s);
    CombinationsExact(padded, combos[i]);
    ComboOverMeaning(move, combos[i], ps, s);
  }

  /** The constraint holds exactly when some reordering of the padded
      score fits the secret, peg by peg. */
  lemma ReorderingsMeaning(move: Code, score: multiset<Peg>, ps: seq<Pos>)
    ensures forall s: Code :: Eval(Reorderings(move, score, ps), s) <==>
      exists combo: seq<Peg> :: multiset(combo) == Pad(score, |ps|) && |combo| >= |ps|
                                && FitsOver(move, combo, ps, s)
  {
    forall s: Code
      ensures Eval(Reorderings(move, score, ps), s) <==>
        exists combo: seq<Peg> :: multiset(combo) == Pad(score, |ps|) && |combo| >= |ps|
                                  && FitsOver(move, combo, ps, s)
    {
      if Eval(Reorderings(move, score, ps), s) {
        PositionsFit(move, score, ps, s);
      }
      if combo: seq<Peg> :| multiset(combo) == Pad(score, |ps|) && |combo| >= |ps| && FitsOver(move, combo, ps, s) {
        FitsPositions(move, score, ps, combo, s);
      }
    }
  }

  /** TestScores.scoreConstraint(move, score) over all four positions. */
  function AllPositionsConstraint(move: Code, score: multiset<Peg>): Constraint {
    PositionsConstraint(move, score, AllPositions)
  }

  /** The test-side score constraint is sound: built from the score a
      guess earns, it holds of the secret that earned it. */
  lemma AllPositionsSound(secret: Code, move: Code)
    ensures Eval(AllPositionsConstraint(move, Feedback(secret, move)), secret)
  {
    var o := Outcomes(secret, move);
    OutcomesWhitesExact(secret, move);
    OutcomesRedsSourced(secret, move);
    PadFeedback(secret, move);
    ScoringFits(secret, move, o);
    FitsPositions(move, Feedback(secret, move), AllPositions, o, secret);
  }

  /** A scoring with WHITE at the exact matches and only sourced REDs fits
      the secret peg by peg. */
  lemma ScoringFits(secret: Code, move: Code, o: seq<Peg>)
    requires |o| == NumPositions && WhitesExact(secret, move, o) && RedsSourced(secret, move, o)
    ensures FitsOver(move, o, AllPositions, secret)
  {
    forall k | 0 <= k < |AllPositions| ensures PegFits(move, o[k], AllPositions[k], secret) {
      assert AllPositions[k] == k;
      if o[k] == Red {
        assert OpenSource(secret, move, k);
      }
    }
  }
}
