/** Score deltas and histograms (Scores.scoreDelta, Scores.scoreHistogram and
    the histogram overload of Scores.scoreDelta). */
module Deltas {
  import opened Codes
  import opened Pegs
  import opened Scoring

  /** Scores.ScoreDelta: how many WHITEs and REDs the second score gains over
      the first (negative for a loss). */
  datatype Delta = Delta(whiteDelta: int, redDelta: int)

  function ScoreDelta(s1: multiset<Peg>, s2: multiset<Peg>): (d: Delta)
    ensures s1[White] + d.whiteDelta == s2[White]
    ensures s1[Red] + d.redDelta == s2[Red]
  {
    Delta(s2[White] as int - s1[White] as int, s2[Red] as int - s1[Red] as int)
  }

  /** Equal scores differ by nothing; and for RED/WHITE feedback nothing else
      can differ by nothing. */
  lemma DeltaZeroIff(s1: multiset<Peg>, s2: multiset<Peg>)
    requires s1[Blank] == 0 && s1[Ignore] == 0 && s2[Blank] == 0 && s2[Ignore] == 0
    ensures ScoreDelta(s1, s2) == Delta(0, 0) <==> s1 == s2
  {
    TallyOf(s1);
    TallyOf(s2);
  }

  /** Swapping the scores negates both components. */
  lemma DeltaAntisymmetric(s1: multiset<Peg>, s2: multiset<Peg>)
    ensures ScoreDelta(s2, s1) == Delta(-ScoreDelta(s1, s2).whiteDelta, -ScoreDelta(s1, s2).redDelta)
  {
  }

  /** Something computed for each of the 1296 codes, in the nested-loop
      order of the source (first position outermost). */
  function Tabulate<T>(f: Code -> T): (r: seq<T>)
    ensures |r| == NumCodes
    ensures forall n :: 0 <= n < NumCodes ==> r[n] == f(Decode(n))
  {
    seq(NumCodes, n requires 0 <= n < NumCodes => f(Decode(n)))
  }

  /** A tabulation holds exactly the values some code produces. */
  lemma TabulateMembers<T>(f: Code -> T, x: T)
    ensures x in multiset(Tabulate(f)) <==> exists m: Code :: f(m) == x
  {
    var s := Tabulate(f);
    if x in multiset(s) {
      var n :| 0 <= n < |s| && s[n] == x;
      assert f(Decode(n)) == x;
    }
    if m: Code :| f(m) == x {
      AllCodesComplete(m);
      assert s[Encode(m)] == x;
    }
  }

  /** Scores.scoreHistogram: the feedback of every one of the 1296 guesses
      against a fixed secret. */
  function ScoreHistogram(secret: Code): (h: multiset<multiset<Peg>>)
    ensures |h| == NumCodes
  {
    multiset(Tabulate(m => Feedback(secret, m)))
  }

  /** The histogram records exactly the feedbacks some guess can earn. */
  lemma ScoreHistogramMembers(secret: Code, f: multiset<Peg>)
    ensures f in ScoreHistogram(secret) <==> exists m: Code :: Feedback(secret, m) == f
  {
    var score := m => Feedback(secret, m);
    TabulateMembers(score, f);
    if m: Code :| score(m) == f {
      assert Feedback(secret, m) == f;
    }
    if m: Code :| Feedback(secret, m) == f {
      assert score(m) == f;
    }
  }

  /** Scores.scoreDelta over all secrets: how the feedback changes from
      `move1` to `move2`, for each of the 1296 secrets. */
  function DeltaHistogram(move1: Code, move2: Code): (h: multiset<Delta>)
    ensures |h| == NumCodes
  {
    multiset(Tabulate(secret => ScoreDelta(Feedback(secret, move1), Feedback(secret, move2))))
  }

  /** The delta histogram records exactly the deltas some secret produces. */
  lemma DeltaHistogramMembers(move1: Code, move2: Code, d: Delta)
    ensures d in DeltaHistogram(move1, move2)
        <==> exists secret: Code :: ScoreDelta(Feedback(secret, move1), Feedback(secret, move2)) == d
  {
    var delta := secret => ScoreDelta(Feedback(secret, move1), Feedback(secret, move2));
    TabulateMembers(delta, d);
    if secret: Code :| delta(secret) == d {
      assert ScoreDelta(Feedback(secret, move1), Feedback(secret, move2)) == d;
    }
    if secret: Code :| ScoreDelta(Feedback(secret, move1), Feedback(secret, move2)) == d {
      assert delta(secret) == d;
    }
  }

  /** A guess compared with itself never moves the score. */
  lemma DeltaHistogramOfSameMove(m: Code)
    ensures forall d :: d in DeltaHistogram(m, m) ==> d == Delta(0, 0)
  {
    forall d | d in DeltaHistogram(m, m) ensures d == Delta(0, 0) {
      DeltaHistogramMembers(m, m, d);
    }
  }
}
