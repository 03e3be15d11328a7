/** The constraint builders of Game: one atom per fact a score reveals, and
    scoreConstraint, which turns a scored guess into an Or over every way of
    laying the score's pegs against the guess positions. */
module Builders {
  import opened Codes
  import opened Pegs
  import opened Constraints

  /** whiteConstraint: the colour is at the position. */
  function WhiteConstraint(colour: Colour, pos: Pos): (r: Constraint)
    ensures forall s: Code :: Eval(r, s) <==> s[pos] == colour
  {
    Is(pos, colour)
  }

  /** noneConstraint(colour, pos): the colour is not at the position. */
  function NoneAt(colour: Colour, pos: Pos): (r: Constraint)
    ensures forall s: Code :: Eval(r, s) <==> s[pos] != colour
  {
    Not(Is(pos, colour))
  }

  /** noneConstraint(colour): the colour is at no position. */
  function NoneAnywhere(colour: Colour): (r: Constraint)
    ensures forall s: Code :: Eval(r, s) <==> Absent(colour, s)
  {
    var r := And(seq(NumPositions, p requires 0 <= p < NumPositions => NoneAt(colour, p)));
    assert forall s: Code :: Eval(r, s) <==> Absent(colour, s) by {
      forall s: Code ensures Eval(r, s) <==> Absent(colour, s) {
        if Eval(r, s) {
          forall p: Pos ensures s[p] != colour {
            assert Eval(r.all[p], s);
          }
        }
      }
    }
    r
  }

  predicate Absent(colour: Colour, s: Code) {
    forall p: Pos :: s[p] != colour
  }

  /** One atom `Is(p, colour)` for each position of ps, in order. */
  function AtomsAt(colour: Colour, ps: seq<Pos>): (r: seq<Constraint>)
    ensures |r| == |ps|
    ensures forall i :: 0 <= i < |ps| ==> r[i] == Is(ps[i], colour)
  {
    seq(|ps|, i requires 0 <= i < |ps| => Is(ps[i], colour))
  }

  /** redConstraint(colour, pos, possiblePos): the colour is not at pos, but
      is at one of the other candidate positions (visited in ascending
      order, as the source's insertion-ordered set is). */
  function RedConstraint(colour: Colour, pos: Pos, possible: set<Pos>): Constraint {
    And([NoneAt(colour, pos), Or(AtomsAt(colour, Ascending(possible - {pos})))])
  }

  /** The colour is at some candidate position other than pos. */
  predicate ElsewhereIn(colour: Colour, pos: Pos, possible: set<Pos>, s: Code) {
    exists q: Pos :: q in possible && q != pos && s[q] == colour
  }

  /** An Or of atoms for one colour holds iff the colour is at one of the
      listed positions. */
  lemma AtomsMeaning(colour: Colour, ps: seq<Pos>, s: Code)
    ensures Eval(Or(AtomsAt(colour, ps)), s) <==> exists i :: 0 <= i < |ps| && s[ps[i]] == colour
  {
    var atoms := AtomsAt(colour, ps);
    if Eval(Or(atoms), s) {
      var i :| 0 <= i < |atoms| && Eval(atoms[i], s);
      assert s[ps[i]] == colour;
    }
    if i :| 0 <= i < |ps| && s[ps[i]] == colour {
      assert Eval(atoms[i], s);
    }
  }

  /** redConstraint holds iff the colour is absent from pos and present at
      another candidate position. */
  lemma RedMeaning(colour: Colour, pos: Pos, possible: set<Pos>, s: Code)
    ensures Eval(RedConstraint(colour, pos, possible), s) <==> s[pos] != colour && ElsewhereIn(colour, pos, possible, s)
  {
    var ps := Ascending(possible - {pos});
    AtomsMeaning(colour, ps, s);
    if i :| 0 <= i < |ps| && s[ps[i]] == colour {
      assert ps[i] in possible - {pos};
    }
    if q: Pos :| q in possible && q != pos && s[q] == colour {
      assert q in ps;
      var i :| 0 <= i < |ps| && ps[i] == q;
    }
    EvalSmall(NoneAt(colour, pos), Or(AtomsAt(colour, ps)), s);
  }

  /** redConstraint(colour, pos): every other position is a candidate. */
  function RedConstraintAll(colour: Colour, pos: Pos): Constraint {
    RedConstraint(colour, pos, AllPos)
  }

  lemma RedAllMeaning(colour: Colour, pos: Pos, s: Code)
    ensures Eval(RedConstraintAll(colour, pos), s) <==> s[pos] != colour && exists q: Pos :: q != pos && s[q] == colour
  {
    RedMeaning(colour, pos, AllPos, s);
    ElsewhereAnywhere(colour, pos, s);
  }

  lemma ElsewhereAnywhere(colour: Colour, pos: Pos, s: Code)
    ensures ElsewhereIn(colour, pos, AllPos, s) <==> exists q: Pos :: q != pos && s[q] == colour
  {
    if q: Pos :| q != pos && s[q] == colour {
      assert q in AllPos;
    }
  }

  // ---------------------------------------------------------------------
  // scoreConstraint

  /** The candidate RED positions of one combination: every position that
      is not WHITE in it. */
  function RedCandidates(combo: seq<Peg>): (r: set<Pos>)
    requires |combo| >= NumPositions
    ensures forall p: Pos :: p in r <==> combo[p] != White
  {
    set p: Pos | 0 <= p < NumPositions && combo[p] != White
  }

  /** The first loop over positions from k on: WHITE gives the colour at its
      position; NONE gives the colour nowhere when the guess has four
      distinct colours, and not at its position otherwise. */
  function PlainAtoms(move: Code, combo: seq<Peg>, k: nat): (r: seq<Constraint>)
    requires |combo| >= NumPositions && k <= NumPositions
    decreases NumPositions - k
  {
    if k == NumPositions then []
    else PlainAtom(move, combo[k], k) + PlainAtoms(move, combo, k + 1)
  }

  function PlainAtom(move: Code, peg: Peg, pos: Pos): seq<Constraint> {
    if peg == White then [WhiteConstraint(move[pos], pos)]
    else if peg == Blank then
      if HasDistinctColours(move) then [NoneAnywhere(move[pos])] else [NoneAt(move[pos], pos)]
    else []
  }

  /** The second loop over positions from k on: RED asks for the colour at
      one of the candidate positions other than its own. */
  function RedAtoms(move: Code, combo: seq<Peg>, possible: set<Pos>, k: nat): (r: seq<Constraint>)
    requires |combo| >= NumPositions && k <= NumPositions
    decreases NumPositions - k
  {
    if k == NumPositions then []
    else (if combo[k] == Red then [RedConstraint(move[k], k, possible)] else [])
         + RedAtoms(move, combo, possible, k + 1)
  }

  /** The conjunction one combination stands for (the first four pegs of the
      combination are laid against the four guess positions). */
  function ComboConstraint(move: Code, combo: seq<Peg>): Constraint
    requires |combo| >= NumPositions
  {
    And(PlainAtoms(move, combo, 0) + RedAtoms(move, combo, RedCandidates(combo), 0))
  }

  /** scoreConstraint: it holds exactly when either the padded score is all
      NONE and no colour of the guess occurs in the secret, or some
      reordering of the padded score fits the secret. */
  function ScoreConstraint(move: Code, score: multiset<Peg>): (r: Constraint)
    ensures forall s: Code :: Eval(r, s) <==>
      if Pad(score, NumPositions)[Blank] == NumPositions
      then forall p: Pos :: Absent(move[p], s)
      else exists combo: seq<Peg> :: multiset(combo) == Pad(score, NumPositions) && |combo| >= NumPositions
                                     && ComboHolds(move, combo, s)
  {
    ScoreCasesMeaning(move, score);
    ScoreCases(move, score)
  }

  /** The constraint scoreConstraint builds: pad the score with NONE; an
      all-NONE score rules out every colour of the guess everywhere; any
      other score is the Or of the constraints of its distinct
      reorderings. */
  function ScoreCases(move: Code, score: multiset<Peg>): Constraint {
    var padded := Pad(score, NumPositions);
    if padded[Blank] == NumPositions then
      And(seq(NumPositions, p requires 0 <= p < NumPositions => NoneAnywhere(move[p])))
    else
      var combos := Combinations(padded);
      CombinationsLength(padded);
      Or(seq(|combos|, i requires 0 <= i < |combos| => ComboConstraint(move, combos[i])))
  }

  lemma CombinationsLength(m: multiset<Peg>)
    ensures forall c :: c in Combinations(m) ==> |c| == |m|
  {
    forall c | c in Combinations(m) ensures |c| == |m| {
      CombinationsExact(m, c);
      assert |multiset(c)| == |c|;
    }
  }

  // ---------------------------------------------------------------------
  // What the builders mean.

  /** What a combination says about a secret, position by position. */
  ghost predicate ComboHolds(move: Code, combo: seq<Peg>, s: Code)
    requires |combo| >= NumPositions
  {
    && PlainsFrom(move, combo, 0, s)
    && RedsFrom(move, combo, RedCandidates(combo), 0, s)
  }

  predicate BlankHolds(move: Code, p: Pos, s: Code) {
    if HasDistinctColours(move) then Absent(move[p], s) else s[p] != move[p]
  }

  /** A conjunction of two lists holds iff both do. */
  lemma AndConcat(a: seq<Constraint>, b: seq<Constraint>, s: Code)
    ensures Eval(And(a + b), s) <==> Eval(And(a), s) && Eval(And(b), s)
  {
    var ab := a + b;
    if Eval(And(a), s) && Eval(And(b), s) {
      forall i | 0 <= i < |ab| ensures Eval(ab[i], s) {
        if i < |a| { assert ab[i] == a[i]; } else { assert ab[i] == b[i - |a|]; }
      }
    }
    if Eval(And(ab), s) {
      forall i | 0 <= i < |a| ensures Eval(a[i], s) { assert ab[i] == a[i]; }
      forall i | 0 <= i < |b| ensures Eval(b[i], s) { assert ab[|a| + i] == b[i]; }
    }
  }

  lemma {:induction false} PlainAtomsMeaning(move: Code, combo: seq<Peg>, k: nat, s: Code)
    requires |combo| >= NumPositions && k <= NumPositions
    ensures Eval(And(PlainAtoms(move, combo, k)), s) <==> PlainsFrom(move, combo, k, s)
    decreases NumPositions - k
  {
    if k < NumPositions {
      PlainAtomsMeaning(move, combo, k + 1, s);
      PlainAtomsHead(move, combo, k, s);
      PlainsFromSplit(move, combo, k, s);
    }
  }

  /** Every WHITE and NONE from position k on holds. */
  ghost predicate PlainsFrom(move: Code, combo: seq<Peg>, k: nat, s: Code)
    requires |combo| >= NumPositions
  {
    && (forall p: Pos :: k <= p && combo[p] == White ==> s[p] == move[p])
    && (forall p: Pos :: k <= p && combo[p] == Blank ==> BlankHolds(move, p, s))
  }

  lemma PlainAtomsHead(move: Code, combo: seq<Peg>, k: Pos, s: Code)
    requires |combo| >= NumPositions
    ensures Eval(And(PlainAtoms(move, combo, k)), s) <==>
      PlainHolds(move, combo[k], k, s) && Eval(And(PlainAtoms(move, combo, k + 1)), s)
  {
    var one := PlainAtom(move, combo[k], k);
    AndConcat(one, PlainAtoms(move, combo, k + 1), s);
    if |one| == 1 {
      assert one == [one[0]];
      EvalSmall(one[0], one[0], s);
    }
  }

  lemma PlainsFromSplit(move: Code, combo: seq<Peg>, k: Pos, s: Code)
    requires |combo| >= NumPositions
    ensures PlainsFrom(move, combo, k, s) <==> PlainHolds(move, combo[k], k, s) && PlainsFrom(move, combo, k + 1, s)
  {
  }

  /** What one WHITE or NONE peg says about position pos. */
  predicate PlainHolds(move: Code, peg: Peg, pos: Pos, s: Code) {
    (peg == White ==> s[pos] == move[pos]) && (peg == Blank ==> BlankHolds(move, pos, s))
  }

  lemma {:induction false} RedAtomsMeaning(move: Code, combo: seq<Peg>, possible: set<Pos>, k: nat, s: Code)
    requires |combo| >= NumPositions && k <= NumPositions
    ensures Eval(And(RedAtoms(move, combo, possible, k)), s) <==> RedsFrom(move, combo, possible, k, s)
    decreases NumPositions - k
  {
    if k < NumPositions {
      RedAtomsMeaning(move, combo, possible, k + 1, s);
      RedAtomsHead(move, combo, possible, k, s);
      RedsFromSplit(move, combo, possible, k, s);
    }
  }

  /** Every RED from position k on holds. */
  ghost predicate RedsFrom(move: Code, combo: seq<Peg>, possible: set<Pos>, k: nat, s: Code)
    requires |combo| >= NumPositions
  {
    forall p: Pos :: k <= p && combo[p] == Red ==> RedHolds(move, p, possible, s)
  }

  lemma RedsFromSplit(move: Code, combo: seq<Peg>, possible: set<Pos>, k: Pos, s: Code)
    requires |combo| >= NumPositions
    ensures RedsFrom(move, combo, possible, k, s) <==>
      (combo[k] == Red ==> RedHolds(move, k, possible, s)) && RedsFrom(move, combo, possible, k + 1, s)
  {
  }

  lemma RedAtomsHead(move: Code, combo: seq<Peg>, possible: set<Pos>, k: Pos, s: Code)
    requires |combo| >= NumPositions
    ensures Eval(And(RedAtoms(move, combo, possible, k)), s) <==>
      (combo[k] == Red ==> RedHolds(move, k, possible, s)) && Eval(And(RedAtoms(move, combo, possible, k + 1)), s)
  {
    var one: seq<Constraint> := if combo[k] == Red then [RedConstraint(move[k], k, possible)] else [];
    var rest := RedAtoms(move, combo, possible, k + 1);
    assert RedAtoms(move, combo, possible, k) == one + rest;
    AndConcat(one, rest, s);
    if combo[k] == Red {
      var red := RedConstraint(move[k], k, possible);
      RedMeaning(move[k], k, possible, s);
      EvalSmall(red, red, s);
    }
  }

  predicate RedHolds(move: Code, p: Pos, possible: set<Pos>, s: Code) {
    s[p] != move[p] && ElsewhereIn(move[p], p, possible, s)
  }

  /** A combination's conjunction holds exactly when the secret fits the
      combination position by position. */
  lemma ComboMeaning(move: Code, combo: seq<Peg>, s: Code)
    requires |combo| >= NumPositions
    ensures Eval(ComboConstraint(move, combo), s) <==> ComboHolds(move, combo, s)
  {
    var possible := RedCandidates(combo);
    AndConcat(PlainAtoms(move, combo, 0), RedAtoms(move, combo, possible, 0), s);
    PlainAtomsMeaning(move, combo, 0, s);
    RedAtomsMeaning(move, combo, possible, 0, s);
  }

  /** The built constraint holds exactly when either the padded score is
      all NONE and no colour of the guess occurs in the secret, or some
      reordering of the padded score fits the secret. */
  lemma ScoreCasesMeaning(move: Code, score: multiset<Peg>)
    ensures forall s: Code :: Eval(ScoreCases(move, score), s) <==>
      if Pad(score, NumPositions)[Blank] == NumPositions
      then forall p: Pos :: Absent(move[p], s)
      else exists combo: seq<Peg> :: multiset(combo) == Pad(score, NumPositions) && |combo| >= NumPositions
                                     && ComboHolds(move, combo, s)
  {
    var padded := Pad(score, NumPositions);
    forall s: Code
      ensures Eval(ScoreCases(move, score), s) <==>
        if padded[Blank] == NumPositions
        then forall p: Pos :: Absent(move[p], s)
        else exists combo: seq<Peg> :: multiset(combo) == padded && |combo| >= NumPositions
                                       && ComboHolds(move, combo, s)
    {
      if padded[Blank] == NumPositions {
        AllBlankMeaning(move, score, s);
      } else {
        CombosMeaning(move, score, s);
      }
    }
  }

  lemma AllBlankMeaning(move: Code, score: multiset<Peg>, s: Code)
    requires Pad(score, NumPositions)[Blank] == NumPositions
    ensures Eval(ScoreCases(move, score), s) <==> forall p: Pos :: Absent(move[p], s)
  {
    var c := ScoreCases(move, score);
    if Eval(c, s) {
      forall p: Pos ensures Absent(move[p], s) {
        assert Eval(c.all[p], s);
      }
    }
  }

  lemma CombosMeaning(move: Code, score: multiset<Peg>, s: Code)
    requires Pad(score, NumPositions)[Blank] != NumPositions
    ensures Eval(ScoreCases(move, score), s) <==>
      exists combo: seq<Peg> :: multiset(combo) == Pad(score, NumPositions) && |combo| >= NumPositions
                                && ComboHolds(move, combo, s)
  {
    var padded := Pad(score, NumPositions);
    if Eval(ScoreCases(move, score), s) {
      CombosFit(move, score, s);
    }
    if combo: seq<Peg> :| multiset(combo) == padded && |combo| >= NumPositions && ComboHolds(move, combo, s) {
      ComboFits(move, score, combo, s);
    }
  }

  lemma CombosFit(move: Code, score: multiset<Peg>, s: Code)
    requires Pad(score, NumPositions)[Blank] != NumPositions
    requires Eval(ScoreCases(move, score), s)
    ensures exists combo: seq<Peg> :: multiset(combo) == Pad(score, NumPositions) && |combo| >= NumPositions
                                      && ComboHolds(move, combo, s)
  {
    var padded := Pad(score, NumPositions);
    var c := ScoreCases(move, score);
    var combos := Combinations(padded);
    CombinationsLength(padded);
    var i :| 0 <= i < |combos| && Eval(c.any[i], s);
    CombinationsExact(padded, combos[i]);
    ComboMeaning(move, combos[i], s);
  }

  lemma ComboFits(move: Code, score: multiset<Peg>, combo: seq<Peg>, s: Code)
    requires Pad(score, NumPositions)[Blank] != NumPositions
    requires multiset(combo) == Pad(score, NumPositions) && |combo| >= NumPositions
    requires ComboHolds(move, combo, s)
    ensures Eval(ScoreCases(move, score), s)
  {
    var padded := Pad(score, NumPositions);
    var c := ScoreCases(move, score);
    var combos := Combinations(padded);
    CombinationsLength(padded);
    CombinationsExact(padded, combo);
    var i :| 0 <= i < |combos| && combos[i] == combo;
    ComboMeaning(move, combo, s);
    assert Eval(c.any[i], s);
  }
}
