/** Soundness of scoreConstraint: whatever score a guess earns against the
    secret, the constraint built from that score holds of the secret, so
    imposing it never removes the true answer. */
module ScoreSoundness {
  import opened Codes
  import opened Pegs
  import opened Scoring
  import opened Constraints
  import opened Builders

  /** Some guess position of colour c earned a RED. */
  predicate EarnsRed(move: Code, o: seq<Peg>, c: Colour)
    requires |o| == NumPositions
  {
    exists i: Pos :: o[i] == Red && move[i] == c
  }

  /** Some open secret position other than p holds the guess colour at p. */
  predicate OpenSource(secret: Code, move: Code, p: Pos) {
    exists q: Pos :: q != p && move[q] != secret[q] && secret[q] == move[p]
  }

  /** WHITE exactly at the exact matches. */
  predicate WhitesExact(secret: Code, move: Code, o: seq<Peg>)
    requires |o| == NumPositions
  {
    forall i: Pos :: o[i] == White <==> move[i] == secret[i]
  }

  /** A colour open in both guess and secret earns a RED somewhere. */
  predicate MatchesCovered(secret: Code, move: Code, o: seq<Peg>)
    requires |o| == NumPositions
  {
    forall p: Pos, q: Pos :: move[p] != secret[p] && move[q] != secret[q] && secret[q] == move[p]
                             ==> EarnsRed(move, o, move[p])
  }

  /** Every RED sits at an open position and has an open source. */
  predicate RedsSourced(secret: Code, move: Code, o: seq<Peg>)
    requires |o| == NumPositions
  {
    forall p: Pos :: o[p] == Red ==> move[p] != secret[p] && OpenSource(secret, move, p)
  }

  lemma OutcomesWhitesExact(secret: Code, move: Code)
    ensures WhitesExact(secret, move, Outcomes(secret, move))
  {
    OutcomesShape(secret, move);
  }

  lemma OutcomesCoverMatches(secret: Code, move: Code)
    ensures MatchesCovered(secret, move, Outcomes(secret, move))
  {
    var o := Outcomes(secret, move);
    forall p: Pos, q: Pos | move[p] != secret[p] && move[q] != secret[q] && secret[q] == move[p]
      ensures EarnsRed(move, o, move[p])
    {
      OpenMatchEarnsRed(secret, move, p, q);
    }
  }

  lemma OutcomesRedsSourced(secret: Code, move: Code)
    ensures RedsSourced(secret, move, Outcomes(secret, move))
  {
    var o := Outcomes(secret, move);
    forall p: Pos | o[p] == Red ensures move[p] != secret[p] && OpenSource(secret, move, p) {
      RedHasSource(secret, move, p);
    }
  }

  /** A NONE peg in a scoring that covers every open match: the colour is
      not at its own position, and with four distinct guess colours it is
      nowhere in the secret. */
  lemma BlankMeansAbsent(secret: Code, move: Code, o: seq<Peg>, p: Pos)
    requires |o| == NumPositions && WhitesExact(secret, move, o) && MatchesCovered(secret, move, o)
    requires o[p] == Blank
    ensures BlankHolds(move, p, secret)
  {
    assert move[p] != secret[p];
    if HasDistinctColours(move) {
      DistinctColoursIff(move);
      assert !EarnsRed(move, o, move[p]) by {
        forall i: Pos | o[i] == Red ensures move[i] != move[p] {
          assert i != p;
        }
      }
      forall q: Pos | q != p ensures secret[q] != move[p] {
        assert move[q] != move[p];
      }
    }
  }

  /** The scoring itself, read as a combination, fits the secret. */
  lemma OutcomesFit(secret: Code, move: Code, o: seq<Peg>)
    requires |o| == NumPositions && WhitesExact(secret, move, o)
    requires MatchesCovered(secret, move, o) && RedsSourced(secret, move, o)
    ensures ComboHolds(move, o, secret)
  {
    forall p: Pos | o[p] == Blank ensures BlankHolds(move, p, secret) {
      BlankMeansAbsent(secret, move, o, p);
    }
    var possible := RedCandidates(o);
    forall p: Pos | o[p] == Red ensures RedHolds(move, p, possible, secret) {
      var q: Pos :| q != p && move[q] != secret[q] && secret[q] == move[p];
      assert q in possible;
    }
  }

  /** Four NONE pegs: no colour of the guess occurs in the secret. */
  lemma NothingMeansAbsent(secret: Code, move: Code, o: seq<Peg>)
    requires |o| == NumPositions && WhitesExact(secret, move, o) && MatchesCovered(secret, move, o)
    requires multiset(o)[Blank] == NumPositions
    ensures forall p: Pos :: Absent(move[p], secret)
  {
    AllOf(o, Blank);
    forall p: Pos, q: Pos ensures secret[q] != move[p] {
      assert move[p] != secret[p] && move[q] != secret[q];
      assert !EarnsRed(move, o, move[p]);
    }
  }

  /** A four-peg list with four copies of x holds nothing but x. */
  lemma AllOf(o: seq<Peg>, x: Peg)
    requires |o| == NumPositions && multiset(o)[x] == NumPositions
    ensures forall i: Pos :: o[i] == x
  {
    OutcomeCount(o, x);
  }

  /** Game.scoreConstraint is sound: the constraint built from the score a
      guess earns holds of the secret that earned it. */
  lemma ScoreConstraintSound(secret: Code, move: Code)
    ensures Eval(ScoreConstraint(move, Feedback(secret, move)), secret)
  {
    var o := Outcomes(secret, move);
    var f := Feedback(secret, move);
    OutcomesWhitesExact(secret, move);
    OutcomesCoverMatches(secret, move);
    OutcomesRedsSourced(secret, move);
    PadFeedback(secret, move);
    if Pad(f, NumPositions)[Blank] == NumPositions {
      NothingMeansAbsent(secret, move, o);
      AllBlankMeaning(move, f, secret);
    } else {
      OutcomesFit(secret, move, o);
      ComboFits(move, f, o, secret);
    }
  }
}
