/** The deduction rules of Game: from two scored guesses that differ in one
    or two positions, constraints beyond the two score constraints
    (imposeDiffConstraints, imposeDiff1Constraints, imposeDiff2Constraints). */
module Rules {
  import opened Codes
  import opened Pegs
  import opened Scoring
  import opened Constraints
  import opened Builders
  import opened Deltas

  // ---------------------------------------------------------------------
  // How scores move when one guess position changes.

  function ExactAt(secret: Code, m: Code, p: Pos): nat {
    if secret[p] == m[p] then 1 else 0
  }

  /** The guesses agree everywhere except possibly at i and j. */
  predicate AgreeOutside(m1: Code, m2: Code, i: Pos, j: Pos) {
    forall p: Pos :: p != i && p != j ==> m1[p] == m2[p]
  }

  /** Exact matches change only at the positions that changed. */
  lemma ExactChange(secret: Code, m1: Code, m2: Code, i: Pos, j: Pos)
    requires AgreeOutside(m1, m2, i, j)
    ensures CountTrue(Exact(secret, m2)) + ExactAt(secret, m1, i) + (if i != j then ExactAt(secret, m1, j) else 0)
         == CountTrue(Exact(secret, m1)) + ExactAt(secret, m2, i) + (if i != j then ExactAt(secret, m2, j) else 0)
  {
  }

  lemma OccChange(m1: Code, m2: Code, d: Pos, c: Colour)
    requires AgreeOutside(m1, m2, d, d)
    ensures Occ(m2, Everywhere, c) + (if m1[d] == c then 1 else 0) == Occ(m1, Everywhere, c) + (if m2[d] == c then 1 else 0)
  {
  }

  /** Taking one `a` out of the guess costs a shared peg. */
  predicate Loses(secret: Code, m: Code, a: Colour) {
    Occ(m, Everywhere, a) <= Occ(secret, Everywhere, a)
  }

  /** Putting one `b` into the guess (counted after the change) gains a
      shared peg. */
  predicate Gains(secret: Code, m: Code, b: Colour) {
    Occ(m, Everywhere, b) <= Occ(secret, Everywhere, b)
  }

  function Ind(b: bool): nat {
    if b then 1 else 0
  }

  lemma {:induction false} CommonChange(secret: Code, m1: Code, m2: Code, d: Pos, c: nat)
    requires c <= NumColours && AgreeOutside(m1, m2, d, d) && m1[d] != m2[d]
    ensures Common(m2, Everywhere, secret, Everywhere, c) + (if m1[d] >= c then Ind(Loses(secret, m1, m1[d])) else 0)
         == Common(m1, Everywhere, secret, Everywhere, c) + (if m2[d] >= c then Ind(Gains(secret, m2, m2[d])) else 0)
    decreases NumColours - c
  {
    if c < NumColours {
      CommonChange(secret, m1, m2, d, c + 1);
      OccChange(m1, m2, d, c);
    }
  }

  /** Changing one position from a to b gains a shared peg if b is still
      short in the guess, and loses one if a was not in surplus. */
  lemma TotalChange(secret: Code, m1: Code, m2: Code, d: Pos)
    requires AgreeOutside(m1, m2, d, d) && m1[d] != m2[d]
    ensures TotalReference(secret, m2) + Ind(Loses(secret, m1, m1[d]))
         == TotalReference(secret, m1) + Ind(Gains(secret, m2, m2[d]))
  {
    CommonChange(secret, m1, m2, d, 0);
  }

  /** The WHITE and RED deltas of a one-position change, in closed form. */
  lemma Diff1Delta(secret: Code, m1: Code, m2: Code, d: Pos, score1: multiset<Peg>, score2: multiset<Peg>)
    requires AgreeOutside(m1, m2, d, d) && m1[d] != m2[d]
    requires ScoredAs(score1, secret, m1) && ScoredAs(score2, secret, m2)
    ensures var delta := ScoreDelta(score1, score2);
            && delta.whiteDelta == ExactAt(secret, m2, d) as int - ExactAt(secret, m1, d) as int
            && delta.redDelta + delta.whiteDelta == Ind(Gains(secret, m2, m2[d])) as int - Ind(Loses(secret, m1, m1[d])) as int
  {
    SharedSplit(secret, m1);
    SharedSplit(secret, m2);
    ExactChange(secret, m1, m2, d, d);
    TotalChange(secret, m1, m2, d);
  }

  /** The colours guess and secret share split into the exact matches and
      the REDs. */
  lemma SharedSplit(secret: Code, move: Code)
    ensures CountTrue(Exact(secret, move)) + RedReference(secret, move) == TotalReference(secret, move)
  {
    WhiteCount(secret, move);
    RedCount(secret, move);
    TotalCount(secret, move);
  }

  /** A guess with four distinct colours holds each of its colours once. */
  lemma DistinctOnce(m: Code, p: Pos)
    requires HasDistinctColours(m)
    ensures Occ(m, Everywhere, m[p]) == 1
  {
    DistinctColoursIff(m);
  }

  lemma HeldOnce(m: Code, p: Pos)
    ensures Occ(m, Everywhere, m[p]) >= 1
  {
  }

  /** A colour the secret holds somewhere, but not at d, is elsewhere. */
  lemma PresentElsewhere(secret: Code, c: Colour, d: Pos)
    requires Occ(secret, Everywhere, c) >= 1 && secret[d] != c
    ensures Eval(RedConstraintAll(c, d), secret)
  {
    OccMember(secret, Everywhere, c);
    RedAllMeaning(c, d, secret);
  }

  lemma NotPresent(secret: Code, c: Colour)
    requires Occ(secret, Everywhere, c) == 0
    ensures Eval(NoneAnywhere(c), secret)
  {
    OccMember(secret, Everywhere, c);
  }

  // ---------------------------------------------------------------------
  // One differing position.

  predicate BothDistinct(m1: Code, m2: Code) {
    HasDistinctColours(m1) && HasDistinctColours(m2)
  }

  /** The score a guess was given, as far as the rules look at it: as many
      WHITEs as exact matches and as many REDs as shared open colours (any
      padding with NONE is ignored). */
  predicate ScoredAs(score: multiset<Peg>, secret: Code, move: Code) {
    score[White] == CountTrue(Exact(secret, move)) && score[Red] == RedReference(secret, move)
  }

  /** The feedback of the secret, padded or not, is such a score. */
  lemma FeedbackScoredAs(secret: Code, move: Code)
    ensures ScoredAs(Feedback(secret, move), secret, move)
    ensures ScoredAs(Pad(Feedback(secret, move), NumPositions), secret, move)
  {
    WhiteCount(secret, move);
    RedCount(secret, move);
  }

  /** imposeDiff1Constraints for the position d where the guesses differ.
      `absentEverywhere` says whether a one-step RED change with no WHITE
      change may conclude that the lost colour is nowhere in the secret;
      the source always draws that conclusion. */
  function Diff1Rule(move1: Code, move2: Code, d: Pos, score1: multiset<Peg>, score2: multiset<Peg>,
                     absentEverywhere: bool): (r: seq<Constraint>)
    ensures forall s: Code :: AllHold(r, s) ==>
      var wd := ScoreDelta(score1, score2).whiteDelta;
      && (wd == 0 ==> s[d] != move1[d] && s[d] != move2[d])
      && (wd == 1 ==> s[d] == move2[d])
      && (wd == -1 ==> s[d] == move1[d])
  {
    Diff1For(move1[d], move2[d], d, ScoreDelta(score1, score2), BothDistinct(move1, move2), absentEverywhere)
  }

  /** The body of imposeDiff1Constraints once the colours at d, the score
      delta and the distinctness test are known. */
  function Diff1For(oldCol: Colour, newCol: Colour, d: Pos, delta: Delta, distinct: bool, absentEverywhere: bool)
    : (r: seq<Constraint>)
    ensures forall s: Code :: AllHold(r, s) ==>
      && (delta.whiteDelta == 0 ==> s[d] != oldCol && s[d] != newCol)
      && (delta.whiteDelta == 1 ==> s[d] == newCol)
      && (delta.whiteDelta == -1 ==> s[d] == oldCol)
  {
    var rd := delta.redDelta;
    var wd := delta.whiteDelta;
    var r :=
      if wd == 0 then
        [NoneAt(oldCol, d), NoneAt(newCol, d)]
        + (if rd == 1 then [RedConstraintAll(newCol, d)] + (if absentEverywhere then [NoneAnywhere(oldCol)] else [])
           else if rd == -1 then [RedConstraintAll(oldCol, d)] + (if absentEverywhere then [NoneAnywhere(newCol)] else [])
           else [])
      else if wd == 1 then
        [WhiteConstraint(newCol, d), NoneAt(oldCol, d)]
        + (if distinct then
             if rd == 0 then [NoneAnywhere(oldCol)]
             else if rd == -1 then [RedConstraintAll(oldCol, d)]
             else []
           else [])
      else if wd == -1 then
        [WhiteConstraint(oldCol, d), NoneAt(newCol, d)]
        + (if distinct then
             if rd == 0 then [NoneAnywhere(newCol)]
             else if rd == 1 then [RedConstraintAll(newCol, d)]
             else []
           else [])
      else [];
    assert forall s: Code :: AllHold(r, s) && wd in {-1, 0, 1} ==> Eval(r[0], s) && Eval(r[1], s);
    r
  }

  /** The rule as Game.java writes it: lines 308 and 311 conclude "absent
      everywhere" whatever the guesses' colours. */
  function Diff1AsWritten(move1: Code, move2: Code, d: Pos, score1: multiset<Peg>, score2: multiset<Peg>): seq<Constraint> {
    Diff1Rule(move1, move2, d, score1, score2, true)
  }

  /** The corrected rule: "absent everywhere" after a RED change only when
      both guesses have four distinct colours, as the WHITE-change branches
      already require. */
  function Diff1(move1: Code, move2: Code, d: Pos, score1: multiset<Peg>, score2: multiset<Peg>): seq<Constraint> {
    Diff1Rule(move1, move2, d, score1, score2, BothDistinct(move1, move2))
  }

  /** The one-position rule is sound whenever "absent everywhere" is drawn
      only for guesses with distinct colours. */
  lemma Diff1RuleSound(secret: Code, move1: Code, move2: Code, d: Pos, score1: multiset<Peg>, score2: multiset<Peg>,
                       absentEverywhere: bool)
    requires Diff(move1, move2) == {d}
    requires ScoredAs(score1, secret, move1) && ScoredAs(score2, secret, move2)
    requires absentEverywhere ==> BothDistinct(move1, move2)
    ensures AllHold(Diff1Rule(move1, move2, d, score1, score2, absentEverywhere), secret)
  {
    var a := move1[d];
    var b := move2[d];
    Diff1Delta(secret, move1, move2, d, score1, score2);
    HeldOnce(move1, d);
    HeldOnce(move2, d);
    var distinct := BothDistinct(move1, move2);
    if distinct {
      DistinctOnce(move1, d);
      DistinctOnce(move2, d);
    }
    Diff1ForSound(secret, a, b, d, ScoreDelta(score1, score2), distinct, absentEverywhere,
                  Occ(move1, Everywhere, a), Occ(move2, Everywhere, b), Gains(secret, move2, b), Loses(secret, move1, a));
  }

  /** The case analysis of the one-position rule, on the counts alone:
      `oldCount` and `newCount` are how often the first guess holds the old
      colour and the second the new one; `gain` and `lose` say whether the
      new colour gained and the old colour lost a shared peg. */
  lemma Diff1ForSound(secret: Code, a: Colour, b: Colour, d: Pos, delta: Delta, distinct: bool, absentEverywhere: bool,
                      oldCount: nat, newCount: nat, gain: bool, lose: bool)
    requires a != b
    requires delta.whiteDelta == Ind(secret[d] == b) as int - Ind(secret[d] == a) as int
    requires delta.redDelta + delta.whiteDelta == Ind(gain) as int - Ind(lose) as int
    requires gain <==> newCount <= Occ(secret, Everywhere, b)
    requires lose <==> oldCount <= Occ(secret, Everywhere, a)
    requires 1 <= oldCount && 1 <= newCount
    requires distinct ==> oldCount == 1 && newCount == 1
    requires absentEverywhere ==> distinct
    ensures AllHold(Diff1For(a, b, d, delta, distinct, absentEverywhere), secret)
  {
    var r := Diff1For(a, b, d, delta, distinct, absentEverywhere);
    HeldOnce(secret, d);
    var rd := delta.redDelta;
    var wd := delta.whiteDelta;
    if wd == 0 {
      if rd == 1 {
        PresentElsewhere(secret, b, d);
        if absentEverywhere {
          NotPresent(secret, a);
        }
      } else if rd == -1 {
        PresentElsewhere(secret, a, d);
        if absentEverywhere {
          NotPresent(secret, b);
        }
      }
    } else if wd == 1 {
      if distinct {
        if rd == 0 {
          NotPresent(secret, a);
        } else if rd == -1 {
          PresentElsewhere(secret, a, d);
        }
      }
    } else if wd == -1 {
      if distinct {
        if rd == 0 {
          NotPresent(secret, b);
        } else if rd == 1 {
          PresentElsewhere(secret, b, d);
        }
      }
    }
  }

  /** The corrected rule never excludes the secret. */
  lemma Diff1Sound(secret: Code, move1: Code, move2: Code, d: Pos, score1: multiset<Peg>, score2: multiset<Peg>)
    requires Diff(move1, move2) == {d}
    requires ScoredAs(score1, secret, move1) && ScoredAs(score2, secret, move2)
    ensures AllHold(Diff1(move1, move2, d, score1, score2), secret)
  {
    Diff1RuleSound(secret, move1, move2, d, score1, score2, BothDistinct(move1, move2));
  }

  /** The rule as written is sound for guesses with distinct colours. */
  lemma Diff1AsWrittenSoundWhenDistinct(secret: Code, move1: Code, move2: Code, d: Pos,
                                        score1: multiset<Peg>, score2: multiset<Peg>)
    requires Diff(move1, move2) == {d} && BothDistinct(move1, move2)
    requires ScoredAs(score1, secret, move1) && ScoredAs(score2, secret, move2)
    ensures AllHold(Diff1AsWritten(move1, move2, d, score1, score2), secret)
  {
    Diff1RuleSound(secret, move1, move2, d, score1, score2, true);
  }

  /** Guesses that differ at d and agree elsewhere differ exactly at d. */
  lemma SingleDiff(m1: Code, m2: Code, d: Pos)
    requires AgreeOutside(m1, m2, d, d) && m1[d] != m2[d]
    ensures Diff(m1, m2) == {d}
  {
    assert forall p :: p in Diff(m1, m2) <==> p == d;
  }

  /** Game.java:308 as written drops the secret: with secret 1022, guess
      0033 scores one WHITE and guess 2033 scores one WHITE and one RED, so
      the rule concludes that colour 0 is nowhere, yet the secret holds it
      at position 1. */
  lemma Diff1AsWrittenUnsound(secret: Code, move1: Code, move2: Code)
    requires secret == [1, 0, 2, 2] && move1 == [0, 0, 3, 3] && move2 == [2, 0, 3, 3]
    ensures Diff(move1, move2) == {0}
    ensures !AllHold(Diff1AsWritten(move1, move2, 0, multiset{White}, multiset{White, Red}), secret)
  {
    SingleDiff(move1, move2, 0);
    var r := Diff1AsWritten(move1, move2, 0, multiset{White}, multiset{White, Red});
    assert ScoreDelta(multiset{White}, multiset{White, Red}) == Delta(0, 1);
    assert r[3] == NoneAnywhere(0);
    assert !Eval(r[3], secret) by {
      assert !Absent(0, secret) by {
        assert secret[1] == 0;
      }
    }
  }

  /** The scores of the counterexample: one WHITE for 0033, one WHITE and
      one RED for 2033. */
  lemma CounterexampleFirst(secret: Code, move: Code)
    requires secret == [1, 0, 2, 2] && move == [0, 0, 3, 3]
    ensures ScoredAs(multiset{White}, secret, move)
  {
    var x := Inexact(secret, move);
    CommonUnfold(move, x, secret, x);
    assert CountTrue(Exact(secret, move)) == 1;
  }

  lemma CounterexampleSecond(secret: Code, move: Code)
    requires secret == [1, 0, 2, 2] && move == [2, 0, 3, 3]
    ensures ScoredAs(multiset{White, Red}, secret, move)
  {
    var x := Inexact(secret, move);
    CommonUnfold(move, x, secret, x);
    assert CountTrue(Exact(secret, move)) == 1;
    assert Min(Occ(move, x, 2), Occ(secret, x, 2)) == 1;
  }

  // ---------------------------------------------------------------------
  // Two differing positions.

  /** For every i and j of ps: the colour of m at i is not at j. */
  function NoneAcross(m: Code, from: seq<Pos>, to: seq<Pos>): (r: seq<Constraint>)
    ensures |r| == |from| * |to|
  {
    if |from| == 0 then []
    else AtNone(m[from[0]], to) + NoneAcross(m, from[1..], to)
  }

  function AtNone(colour: Colour, to: seq<Pos>): (r: seq<Constraint>)
    ensures |r| == |to|
    ensures forall k :: 0 <= k < |to| ==> r[k] == NoneAt(colour, to[k])
  {
    seq(|to|, k requires 0 <= k < |to| => NoneAt(colour, to[k]))
  }

  /** No colour that m has at a position of `from` is at a position of `to`. */
  predicate Avoids(m: Code, from: seq<Pos>, to: seq<Pos>, s: Code) {
    forall x, y :: 0 <= x < |from| && 0 <= y < |to| ==> s[to[y]] != m[from[x]]
  }

  /** No colour that m has at a position of d is at a position of d. */
  predicate AvoidsWithin(m: Code, d: set<Pos>, s: Code) {
    forall i: Pos, j: Pos :: i in d && j in d ==> s[j] != m[i]
  }

  lemma {:induction false} NoneAcrossMeaning(m: Code, from: seq<Pos>, to: seq<Pos>, s: Code)
    ensures AllHold(NoneAcross(m, from, to), s) <==> Avoids(m, from, to, s)
    decreases |from|
  {
    if |from| > 0 {
      NoneAcrossMeaning(m, from[1..], to, s);
      var head := AtNone(m[from[0]], to);
      var tail := NoneAcross(m, from[1..], to);
      AndConcat(head, tail, s);
      assert AllHold(head, s) <==> forall y :: 0 <= y < |to| ==> s[to[y]] != m[from[0]];
      assert Avoids(m, from, to, s) <==> (forall y :: 0 <= y < |to| ==> s[to[y]] != m[from[0]]) && Avoids(m, from[1..], to, s) by {
        if (forall y :: 0 <= y < |to| ==> s[to[y]] != m[from[0]]) && Avoids(m, from[1..], to, s) {
          forall x, y | 0 <= x < |from| && 0 <= y < |to| ensures s[to[y]] != m[from[x]] {
            if x > 0 {
              assert from[x] == from[1..][x - 1];
            }
          }
        }
        if Avoids(m, from, to, s) {
          forall x, y | 0 <= x < |from| - 1 && 0 <= y < |to| ensures s[to[y]] != m[from[1..][x]] {
            assert from[1..][x] == from[x + 1];
          }
        }
      }
    }
  }

  /** imposeDiff2Constraints: with no RED in either score, a WHITE gain
      rules out the first guess's colours of d at both positions of d, and
      a WHITE loss the second guess's. */
  function Diff2(move1: Code, move2: Code, score1: multiset<Peg>, score2: multiset<Peg>): (r: seq<Constraint>)
    ensures |r| == 0 || |r| == |Diff(move1, move2)| * |Diff(move1, move2)|
  {
    var ps := Ascending(Diff(move1, move2));
    var wd := ScoreDelta(score1, score2).whiteDelta;
    if score1[Red] == 0 && score2[Red] == 0 then
      if wd > 0 then NoneAcross(move1, ps, ps)
      else if wd < 0 then NoneAcross(move2, ps, ps)
      else []
    else []
  }

  /** What the two-position rule imposes, in terms of d itself. */
  lemma Diff2Meaning(move1: Code, move2: Code, score1: multiset<Peg>, score2: multiset<Peg>, s: Code)
    ensures var d := Diff(move1, move2);
            var wd := ScoreDelta(score1, score2).whiteDelta;
            AllHold(Diff2(move1, move2, score1, score2), s) <==>
              (score1[Red] == 0 && score2[Red] == 0 ==>
                 (wd > 0 ==> AvoidsWithin(move1, d, s)) && (wd < 0 ==> AvoidsWithin(move2, d, s)))
  {
    var d := Diff(move1, move2);
    var ps := Ascending(d);
    NoneAcrossMeaning(move1, ps, ps, s);
    NoneAcrossMeaning(move2, ps, ps, s);
    AvoidsAscending(move1, d, s);
    AvoidsAscending(move2, d, s);
  }

  lemma AvoidsAscending(m: Code, d: set<Pos>, s: Code)
    ensures Avoids(m, Ascending(d), Ascending(d), s) <==> AvoidsWithin(m, d, s)
  {
    var ps := Ascending(d);
    if Avoids(m, ps, ps, s) {
      forall i: Pos, j: Pos | i in d && j in d ensures s[j] != m[i] {
        var x :| 0 <= x < |ps| && ps[x] == i;
        var y :| 0 <= y < |ps| && ps[y] == j;
      }
    }
    if AvoidsWithin(m, d, s) {
      forall x, y | 0 <= x < |ps| && 0 <= y < |ps| ensures s[ps[y]] != m[ps[x]] {
        assert ps[x] in d && ps[y] in d;
      }
    }
  }

  /** Each colour's share is bounded by the total of shared colours. */
  lemma {:induction false} CommonBounds(a: Code, ma: Mask, b: Code, mb: Mask, c0: nat, c: Colour)
    requires c0 <= c
    ensures Min(Occ(a, ma, c), Occ(b, mb, c)) <= Common(a, ma, b, mb, c0)
    decreases c - c0
  {
    if c0 < c {
      CommonBounds(a, ma, b, mb, c0 + 1, c);
    }
  }

  /** With no RED, no colour is at an open position of both guess and
      secret. */
  lemma NoRedsNoOpenMatch(secret: Code, move: Code, p: Pos, q: Pos)
    requires RedReference(secret, move) == 0
    requires move[p] != secret[p] && move[q] != secret[q]
    ensures secret[q] != move[p]
  {
    var x := Inexact(secret, move);
    var c := move[p];
    CommonBounds(move, x, secret, x, 0, c);
    assert x[p] && x[q];
    OccMember(move, x, c);
    OccMember(secret, x, c);
  }

  /** Two changed positions and a WHITE gain: the first guess matched
      neither. */
  lemma GainMeansOpen(secret: Code, m1: Code, m2: Code, i: Pos, j: Pos)
    requires i != j && m1[i] != m2[i] && m1[j] != m2[j] && AgreeOutside(m1, m2, i, j)
    requires CountTrue(Exact(secret, m2)) > CountTrue(Exact(secret, m1))
    ensures m1[i] != secret[i] && m1[j] != secret[j]
  {
    ExactChange(secret, m1, m2, i, j);
  }

  /** The two-position rule never excludes the secret. */
  lemma Diff2Sound(secret: Code, move1: Code, move2: Code, score1: multiset<Peg>, score2: multiset<Peg>)
    requires |Diff(move1, move2)| == 2
    requires ScoredAs(score1, secret, move1) && ScoredAs(score2, secret, move2)
    ensures AllHold(Diff2(move1, move2, score1, score2), secret)
  {
    var i, j := TwoPositions(Diff(move1, move2));
    var wd := ScoreDelta(score1, score2).whiteDelta;
    Diff2Meaning(move1, move2, score1, score2, secret);
    if score1[Red] == 0 && score2[Red] == 0 {
      if wd > 0 {
        Diff2Avoids(secret, move1, move2, i, j);
      } else if wd < 0 {
        DiffSymmetric(move1, move2);
        Diff2Avoids(secret, move2, move1, i, j);
      }
    }
  }

  /** A two-element set of positions, element by element. */
  lemma TwoPositions(d: set<Pos>) returns (i: Pos, j: Pos)
    requires |d| == 2
    ensures i != j && d == {i, j}
  {
    var ps := Ascending(d);
    i, j := ps[0], ps[1];
    forall p: Pos | p in d ensures p == i || p == j {
      var x :| 0 <= x < |ps| && ps[x] == p;
    }
  }

  /** A WHITE gain across two changed positions with no RED before: the
      first guess's colours there are at neither position. */
  lemma Diff2Avoids(secret: Code, m1: Code, m2: Code, i: Pos, j: Pos)
    requires i != j && Diff(m1, m2) == {i, j}
    requires RedReference(secret, m1) == 0
    requires CountTrue(Exact(secret, m2)) > CountTrue(Exact(secret, m1))
    ensures AvoidsWithin(m1, Diff(m1, m2), secret)
  {
    assert AgreeOutside(m1, m2, i, j);
    GainMeansOpen(secret, m1, m2, i, j);
    NoMatchWithin(secret, m1, i, j);
  }

  lemma NoMatchWithin(secret: Code, move: Code, i: Pos, j: Pos)
    requires RedReference(secret, move) == 0
    requires move[i] != secret[i] && move[j] != secret[j]
    ensures secret[i] != move[i] && secret[j] != move[i] && secret[i] != move[j] && secret[j] != move[j]
  {
    NoRedsNoOpenMatch(secret, move, i, j);
    NoRedsNoOpenMatch(secret, move, j, i);
  }

  // ---------------------------------------------------------------------
  // The dispatch.

  /** imposeDiffConstraints: the one-position rule for guesses one position
      apart, the two-position rule for guesses two apart, nothing
      otherwise. `guarded` picks the corrected one-position rule; without
      it the rule is the one Game.java writes. */
  function DiffConstraints(move1: Code, move2: Code, score1: multiset<Peg>, score2: multiset<Peg>, guarded: bool)
    : (r: seq<Constraint>)
    ensures |Diff(move1, move2)| != 1 && |Diff(move1, move2)| != 2 ==> r == []
    ensures forall s: Code :: AllHold(r, s) && |Diff(move1, move2)| == 1 ==>
      var d := OnlyPosition(Diff(move1, move2));
      var wd := ScoreDelta(score1, score2).whiteDelta;
      && (wd == 0 ==> s[d] != move1[d] && s[d] != move2[d])
      && (wd == 1 ==> s[d] == move2[d])
      && (wd == -1 ==> s[d] == move1[d])
  {
    var d := Diff(move1, move2);
    if |d| == 1 then
      if guarded then Diff1(move1, move2, OnlyPosition(d), score1, score2)
      else Diff1AsWritten(move1, move2, OnlyPosition(d), score1, score2)
    else if |d| == 2 then Diff2(move1, move2, score1, score2)
    else []
  }

  /** The element of a one-element set (Iterables.getOnlyElement). */
  function OnlyPosition(d: set<Pos>): (p: Pos)
    requires |d| == 1
    ensures d == {p}
  {
    var ps := Ascending(d);
    assert ps[0] in d;
    assert forall q: Pos :: q in d ==> q == ps[0] by {
      forall q: Pos | q in d ensures q == ps[0] {
        var x :| 0 <= x < |ps| && ps[x] == q;
      }
    }
    ps[0]
  }

  /** No constraint the guarded dispatch imposes excludes the secret. */
  lemma DiffConstraintsSound(secret: Code, move1: Code, move2: Code, score1: multiset<Peg>, score2: multiset<Peg>)
    requires ScoredAs(score1, secret, move1) && ScoredAs(score2, secret, move2)
    ensures AllHold(DiffConstraints(move1, move2, score1, score2, true), secret)
  {
    var d := Diff(move1, move2);
    if |d| == 1 {
      Diff1Sound(secret, move1, move2, OnlyPosition(d), score1, score2);
    } else if |d| == 2 {
      Diff2Sound(secret, move1, move2, score1, score2);
    }
  }

  /** The dispatch as written and the guarded one differ exactly for
      guesses one position apart, not both of distinct colours, whose
      scores differ by one RED and no WHITE: the case of lines 306-312. */
  lemma DiffConstraintsAgree(move1: Code, move2: Code, score1: multiset<Peg>, score2: multiset<Peg>)
    ensures var delta := ScoreDelta(score1, score2);
      DiffConstraints(move1, move2, score1, score2, false) != DiffConstraints(move1, move2, score1, score2, true)
      <==> |Diff(move1, move2)| == 1 && !BothDistinct(move1, move2)
           && delta.whiteDelta == 0 && (delta.redDelta == 1 || delta.redDelta == -1)
  {
    var d := Diff(move1, move2);
    if |d| == 1 {
      var p := OnlyPosition(d);
      var delta := ScoreDelta(score1, score2);
      var a := Diff1For(move1[p], move2[p], p, delta, BothDistinct(move1, move2), true);
      var b := Diff1For(move1[p], move2[p], p, delta, BothDistinct(move1, move2), BothDistinct(move1, move2));
      assert delta.whiteDelta == 0 && (delta.redDelta == 1 || delta.redDelta == -1) && !BothDistinct(move1, move2)
        ==> |a| == |b| + 1;
    }
  }

  /** Hence the dispatch as written is sound for guesses of four distinct
      colours, and for guesses not one position apart. */
  lemma DiffConstraintsAsWrittenSound(secret: Code, move1: Code, move2: Code, score1: multiset<Peg>, score2: multiset<Peg>)
    requires ScoredAs(score1, secret, move1) && ScoredAs(score2, secret, move2)
    requires BothDistinct(move1, move2) || |Diff(move1, move2)| != 1
    ensures AllHold(DiffConstraints(move1, move2, score1, score2, false), secret)
  {
    DiffConstraintsAgree(move1, move2, score1, score2);
    DiffConstraintsSound(secret, move1, move2, score1, score2);
  }
}
