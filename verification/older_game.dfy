/** TestScores.makeMove: the older, test-side game driver. Each guess is
    scored, recorded with its score padded to four pegs, constrained by the
    restricted score constraint over all four positions and, from the
    second guess on, compared with every guess so far by the one-, two- or
    three-position rule. When the secret is known every new constraint is
    first checked against it, and a constraint that excludes the secret
    stops the game. */
module OlderGame {
  import opened Wrappers
  import opened Codes
  import opened Pegs
  import opened Scoring
  import opened Constraints
  import opened Deltas
  import opened Rules
  import opened Restricted
  import opened OlderRules
  import opened OlderSpan
  import Game

  /** The rule for an earlier guess and the new one, chosen by the number
      of positions they differ in. `guarded` says whether the RED patterns
      of the two- and three-position rules are kept to guesses of four
      distinct colours; the source does not keep them so. */
  function RuleFor(move1: Code, move2: Code, score1: multiset<Peg>, score2: multiset<Peg>, guarded: bool)
    : (r: seq<Constraint>)
    ensures !(1 <= |Diff(move1, move2)| <= 3) ==> r == []
    ensures |Diff(move1, move2)| == 1 ==> r == OneRule(move1, move2, OnlyPosition(Diff(move1, move2)), score1, score2)
    ensures |Diff(move1, move2)| == 2 ==>
      r == (if guarded then PairRule(move1, move2, score1, score2) else PairRuleAsWritten(move1, move2, score1, score2))
    ensures |Diff(move1, move2)| == 3 ==>
      r == (if guarded then TripleRule(move1, move2, score1, score2) else TripleRuleAsWritten(move1, move2, score1, score2))
  {
    var d := Diff(move1, move2);
    if |d| == 1 then OneRule(move1, move2, OnlyPosition(d), score1, score2)
    else if |d| == 2 then
      if guarded then PairRule(move1, move2, score1, score2) else PairRuleAsWritten(move1, move2, score1, score2)
    else if |d| == 3 then
      if guarded then TripleRule(move1, move2, score1, score2) else TripleRuleAsWritten(move1, move2, score1, score2)
    else []
  }

  /** With the RED patterns guarded, the rule for two correctly scored
      guesses holds of the secret. */
  lemma RuleForSound(secret: Code, move1: Code, move2: Code, score1: multiset<Peg>, score2: multiset<Peg>)
    requires ScoredAs(score1, secret, move1) && ScoredAs(score2, secret, move2)
    ensures AllHold(RuleFor(move1, move2, score1, score2, true), secret)
  {
    var d := Diff(move1, move2);
    if |d| == 1 {
      OneRuleSound(secret, move1, move2, OnlyPosition(d), score1, score2);
    } else if |d| == 2 {
      PairRuleSound(secret, move1, move2, score1, score2);
    } else if |d| == 3 {
      TripleRuleSound(secret, move1, move2, score1, score2);
    }
  }

  /** The constraints of RuleFor that are asserted against a known secret
      (`asserted`), or those imposed without an assertion (`!asserted`):
      only the one-position rule's either-or constraint is unasserted. */
  function RulePart(move1: Code, move2: Code, score1: multiset<Peg>, score2: multiset<Peg>, guarded: bool, asserted: bool)
    : (r: seq<Constraint>)
    ensures |Diff(move1, move2)| != 1 ==> r == (if asserted then RuleFor(move1, move2, score1, score2, guarded) else [])
  {
    var d := Diff(move1, move2);
    if |d| == 1 then
      if asserted then OneRuleAsserted(move1, move2, OnlyPosition(d), score1, score2)
      else OneRuleUnasserted(move1, move2, OnlyPosition(d), score1, score2)
    else if asserted then RuleFor(move1, move2, score1, score2, guarded)
    else []
  }

  /** A rule holds exactly when its asserted and its unasserted parts do. */
  lemma RuleSplit(move1: Code, move2: Code, score1: multiset<Peg>, score2: multiset<Peg>, guarded: bool, s: Code)
    ensures AllHold(RuleFor(move1, move2, score1, score2, guarded), s)
      <==> AllHold(RulePart(move1, move2, score1, score2, guarded, true), s)
           && AllHold(RulePart(move1, move2, score1, score2, guarded, false), s)
  {
    var d := Diff(move1, move2);
    if |d| == 1 {
      OneRuleSplit(move1, move2, OnlyPosition(d), score1, score2);
      AllHoldConcat(RulePart(move1, move2, score1, score2, guarded, true),
                    RulePart(move1, move2, score1, score2, guarded, false), s);
    }
  }

  /** The rules between each guess so far, in order, and the new one. */
  function RulesWith(turns: seq<Game.Turn>, move: Code, score: multiset<Peg>, guarded: bool): seq<Constraint> {
    if |turns| == 0 then []
    else
      var last := turns[|turns| - 1];
      RulesWith(turns[..|turns| - 1], move, score, guarded) + RuleFor(last.move, move, last.score, score, guarded)
  }

  /** Guarded rules against correctly scored guesses hold of the secret. */
  lemma {:induction false} RulesWithSound(turns: seq<Game.Turn>, move: Code, score: multiset<Peg>, secret: Code)
    requires Game.Recorded(turns, secret) && ScoredAs(score, secret, move)
    ensures AllHold(RulesWith(turns, move, score, true), secret)
  {
    if |turns| > 0 {
      var last := turns[|turns| - 1];
      var front := turns[..|turns| - 1];
      assert Game.Recorded(front, secret) by {
        forall i | 0 <= i < |front| ensures ScoredAs(front[i].score, secret, front[i].move) {
          assert front[i] == turns[i];
        }
      }
      RulesWithSound(front, move, score, secret);
      RuleForSound(secret, last.move, move, last.score, score);
      AllHoldConcat(RulesWith(front, move, score, true), RuleFor(last.move, move, last.score, score, true), secret);
    }
  }

  /** One part of the rules between each guess so far and the new one. */
  function PartWith(turns: seq<Game.Turn>, move: Code, score: multiset<Peg>, guarded: bool, asserted: bool)
    : seq<Constraint>
  {
    if |turns| == 0 then []
    else
      var last := turns[|turns| - 1];
      PartWith(turns[..|turns| - 1], move, score, guarded, asserted)
      + RulePart(last.move, move, last.score, score, guarded, asserted)
  }

  /** The rules hold exactly when their asserted and unasserted parts do. */
  lemma {:induction false} PartsSplit(turns: seq<Game.Turn>, move: Code, score: multiset<Peg>, guarded: bool, s: Code)
    ensures AllHold(RulesWith(turns, move, score, guarded), s)
      <==> AllHold(PartWith(turns, move, score, guarded, true), s) && AllHold(PartWith(turns, move, score, guarded, false), s)
  {
    if |turns| > 0 {
      var last := turns[|turns| - 1];
      var front := turns[..|turns| - 1];
      PartsSplit(front, move, score, guarded, s);
      RuleSplit(last.move, move, last.score, score, guarded, s);
      AllHoldConcat(RulesWith(front, move, score, guarded), RuleFor(last.move, move, last.score, score, guarded), s);
      AllHoldConcat(PartWith(front, move, score, guarded, true),
                    RulePart(last.move, move, last.score, score, guarded, true), s);
      AllHoldConcat(PartWith(front, move, score, guarded, false),
                    RulePart(last.move, move, last.score, score, guarded, false), s);
    }
  }

  /** The constraints makeMove adds for a guess with the given score: the
      restricted score constraint over all four positions and, from the
      second guess on, the rules against every guess so far, the new one
      included, each with its padded score. */
  function Fresh(turns: seq<Game.Turn>, move: Code, score: multiset<Peg>, guarded: bool): seq<Constraint> {
    var padded := Pad(score, NumPositions);
    var all := turns + [Game.Turn(move, padded)];
    [AllPositionsConstraint(move, score)] + (if |all| > 1 then RulesWith(all, move, padded, guarded) else [])
  }

  /** The new constraints that are asserted against a known secret: the
      score constraint (assertConstraint) and the asserted part of the
      rules. */
  function FreshAsserted(turns: seq<Game.Turn>, move: Code, score: multiset<Peg>, guarded: bool): seq<Constraint> {
    var padded := Pad(score, NumPositions);
    var all := turns + [Game.Turn(move, padded)];
    [AllPositionsConstraint(move, score)] + (if |all| > 1 then PartWith(all, move, padded, guarded, true) else [])
  }

  /** The new constraints imposed without an assertion. */
  function FreshUnasserted(turns: seq<Game.Turn>, move: Code, score: multiset<Peg>, guarded: bool): seq<Constraint> {
    var padded := Pad(score, NumPositions);
    var all := turns + [Game.Turn(move, padded)];
    if |all| > 1 then PartWith(all, move, padded, guarded, false) else []
  }

  /** The new constraints hold exactly when the asserted and the
      unasserted ones do. */
  lemma FreshSplit(turns: seq<Game.Turn>, move: Code, score: multiset<Peg>, guarded: bool)
    ensures forall s: Code ::
              AllHold(Fresh(turns, move, score, guarded), s)
              <==> AllHold(FreshAsserted(turns, move, score, guarded), s) && AllHold(FreshUnasserted(turns, move, score, guarded), s)
  {
    var padded := Pad(score, NumPositions);
    var all := turns + [Game.Turn(move, padded)];
    var head := [AllPositionsConstraint(move, score)];
    forall s: Code
      ensures AllHold(Fresh(turns, move, score, guarded), s)
        <==> AllHold(FreshAsserted(turns, move, score, guarded), s) && AllHold(FreshUnasserted(turns, move, score, guarded), s)
    {
      if |all| > 1 {
        PartsSplit(all, move, padded, guarded, s);
        AllHoldConcat(head, RulesWith(all, move, padded, guarded), s);
        AllHoldConcat(head, PartWith(all, move, padded, guarded, true), s);
      } else {
        AllHoldConcat(head, [], s);
      }
    }
  }

  /** The new constraints hold of a secret that scored every guess, the
      new one by its true feedback. */
  lemma FreshSound(turns: seq<Game.Turn>, move: Code, secret: Code)
    requires Game.Recorded(turns, secret)
    ensures AllHold(Fresh(turns, move, Feedback(secret, move), true), secret)
  {
    var score := Feedback(secret, move);
    var padded := Pad(score, NumPositions);
    var all := turns + [Game.Turn(move, padded)];
    FeedbackScoredAs(secret, move);
    Game.RecordedGrows(turns, Game.Turn(move, padded), secret);
    AllPositionsSound(secret, move);
    var rules := if |all| > 1 then RulesWith(all, move, padded, true) else [];
    if |all| > 1 {
      RulesWithSound(all, move, padded, secret);
    }
    HoldsOne(AllPositionsConstraint(move, score), secret);
    AllHoldConcat([AllPositionsConstraint(move, score)], rules, secret);
    assert Fresh(turns, move, score, true) == [AllPositionsConstraint(move, score)] + rules;
  }

  /** The state after recording the guess with its padded score and
      imposing the new constraints. */
  function Imposed(g: Game.State, move: Code, score: multiset<Peg>, guarded: bool): Game.State {
    Game.State(g.turns + [Game.Turn(move, Pad(score, NumPositions))], g.store + Fresh(g.turns, move, score, guarded))
  }

  /** With the RED patterns guarded and an honest scorer, imposing a guess
      keeps the secret in the store and the record correct. */
  lemma ImposedKeepsSecret(g: Game.State, move: Code, scorer: Code -> multiset<Peg>, secret: Code)
    requires Game.Honest(scorer, secret) && Game.Recorded(g.turns, secret) && AllHold(g.store, secret)
    ensures AllHold(Fresh(g.turns, move, scorer(move), true), secret)
    ensures AllHold(Imposed(g, move, scorer(move), true).store, secret)
    ensures Game.Recorded(Imposed(g, move, scorer(move), true).turns, secret)
  {
    assert scorer(move) == Feedback(secret, move);
    FeedbackScoredAs(secret, move);
    FreshSound(g.turns, move, secret);
    AllHoldConcat(g.store, Fresh(g.turns, move, scorer(move), true), secret);
    Game.RecordedGrows(g.turns, Game.Turn(move, Pad(scorer(move), NumPositions)), secret);
  }

  /** TestScores.makeMove. With a known secret every asserted constraint
      is checked against it, and the game stops at the first that excludes
      it; the either-or constraint is imposed unchecked. So a game that
      goes on keeps the secret in the store unless the unchecked part
      excludes it, and with the RED patterns guarded an honest scorer never
      stops it. */
  function MakeMove(g: Game.State, move: Code, scorer: Code -> multiset<Peg>, secret: Option<Code>, guarded: bool)
    : (r: Result<Game.State>)
    ensures r.Failure? <==> secret.Some? && !AllHold(FreshAsserted(g.turns, move, scorer(move), guarded), secret.value)
    ensures r.Success? ==> r.value.turns == g.turns + [Game.Turn(move, Pad(scorer(move), NumPositions))]
    ensures r.Success? ==> |r.value.store| >= |g.store| && r.value.store[..|g.store|] == g.store
    ensures r.Success? && secret.Some? && AllHold(g.store, secret.value) ==>
      (AllHold(r.value.store, secret.value) <==> AllHold(FreshUnasserted(g.turns, move, scorer(move), guarded), secret.value))
    ensures secret.Some? && guarded && Game.Honest(scorer, secret.value) && Game.Recorded(g.turns, secret.value) ==>
      && r.Success? && Game.Recorded(r.value.turns, secret.value)
      && (AllHold(g.store, secret.value) ==> AllHold(r.value.store, secret.value))
  {
    var added := Fresh(g.turns, move, scorer(move), guarded);
    var next := Imposed(g, move, scorer(move), guarded);
    AllHoldConcatAll(g.store, added);
    FreshSplit(g.turns, move, scorer(move), guarded);
    assert next.store[..|g.store|] == g.store;
    HonestKeeps(g.turns, move, scorer, secret, guarded);
    if secret.Some? && !AllHold(FreshAsserted(g.turns, move, scorer(move), guarded), secret.value)
    then Failure("constraint excludes the secret")
    else Success(next)
  }

  /** Concatenation holds of a code exactly when both parts do. */
  lemma AllHoldConcatAll(a: seq<Constraint>, b: seq<Constraint>)
    ensures forall s: Code :: AllHold(a + b, s) <==> AllHold(a, s) && AllHold(b, s)
  {
    forall s: Code ensures AllHold(a + b, s) <==> AllHold(a, s) && AllHold(b, s) {
      AllHoldConcat(a, b, s);
    }
  }

  /** The facts an honest scorer gives about the new constraints and
      the record, for a known secret. */
  lemma HonestKeeps(turns: seq<Game.Turn>, move: Code, scorer: Code -> multiset<Peg>, secret: Option<Code>, guarded: bool)
    ensures secret.Some? && guarded && Game.Honest(scorer, secret.value) && Game.Recorded(turns, secret.value) ==>
      AllHold(Fresh(turns, move, scorer(move), guarded), secret.value)
      && Game.Recorded(turns + [Game.Turn(move, Pad(scorer(move), NumPositions))], secret.value)
  {
    if secret.Some? && guarded && Game.Honest(scorer, secret.value) && Game.Recorded(turns, secret.value) {
      ImposedKeepsSecret(Game.State(turns, []), move, scorer, secret.value);
    }
  }

  /** A first guess adds no rules, so with a known secret and an honest
      scorer it never stops the game, guarded or not. */
  lemma FirstMoveGoesOn(move: Code, scorer: Code -> multiset<Peg>, secret: Code, guarded: bool)
    requires Game.Honest(scorer, secret)
    ensures MakeMove(Game.State([], []), move, scorer, Some(secret), guarded).Success?
  {
    HonestKeeps([], move, scorer, Some(secret), true);
    FreshSplit([], move, scorer(move), true);
    assert FreshAsserted([], move, scorer(move), guarded) == FreshAsserted([], move, scorer(move), true);
  }

  /** At the second guess the only rule is the one against the first: the
      second guess against itself differs nowhere. */
  lemma SecondRules(t1: Game.Turn, move: Code, score: multiset<Peg>, guarded: bool)
    ensures RulesWith([t1, Game.Turn(move, score)], move, score, guarded) == RuleFor(t1.move, move, t1.score, score, guarded)
  {
    var all := [t1, Game.Turn(move, score)];
    assert Diff(move, move) == {};
    assert RuleFor(move, move, score, score, guarded) == [];
    assert all[..1] == [t1] && [t1][..0] == [];
    assert RulesWith([t1], move, score, guarded) == RuleFor(t1.move, move, t1.score, score, guarded);
  }

  /** The same for the asserted part of the rules. */
  lemma SecondAsserted(t1: Game.Turn, move: Code, score: multiset<Peg>, guarded: bool)
    ensures PartWith([t1, Game.Turn(move, score)], move, score, guarded, true)
      == RulePart(t1.move, move, t1.score, score, guarded, true)
  {
    var all := [t1, Game.Turn(move, score)];
    assert Diff(move, move) == {};
    assert RuleFor(move, move, score, score, guarded) == [];
    assert RulePart(move, move, score, score, guarded, true) == [];
    assert all[..1] == [t1] && [t1][..0] == [];
    assert PartWith([t1], move, score, guarded, true) == RulePart(t1.move, move, t1.score, score, guarded, true);
  }

  /** A second guess whose two-position rule as written excludes the
      secret stops the game. */
  lemma SecondMoveStops(g: Game.State, move1: Code, move2: Code, scorer: Code -> multiset<Peg>, secret: Code)
    requires g.turns == [Game.Turn(move1, Pad(scorer(move1), NumPositions))]
    requires |Diff(move1, move2)| == 2
    requires !AllHold(PairRuleAsWritten(move1, move2, Pad(scorer(move1), NumPositions), Pad(scorer(move2), NumPositions)), secret)
    ensures MakeMove(g, move2, scorer, Some(secret), false).Failure?
  {
    var padded := Pad(scorer(move2), NumPositions);
    SecondAsserted(g.turns[0], move2, padded, false);
    var rules := PartWith(g.turns + [Game.Turn(move2, padded)], move2, padded, false, true);
    assert g.turns + [Game.Turn(move2, padded)] == [g.turns[0], Game.Turn(move2, padded)];
    AllHoldConcat([AllPositionsConstraint(move2, scorer(move2))], rules, secret);
  }

  /** The honest scores of [2,5,0,0] and [3,5,0,2] against [3,5,5,0],
      padded, differ by one RED. */
  lemma CounterDelta(secret: Code, move1: Code, move2: Code, scorer: Code -> multiset<Peg>)
    requires secret == [3, 5, 5, 0] && move1 == [2, 5, 0, 0] && move2 == [3, 5, 0, 2]
    requires Game.Honest(scorer, secret)
    ensures ScoreDelta(Pad(scorer(move1), NumPositions), Pad(scorer(move2), NumPositions)) == Delta(0, 1)
  {
    assert scorer(move1) == Feedback(secret, move1) && scorer(move2) == Feedback(secret, move2);
    FeedbackScoredAs(secret, move1);
    FeedbackScoredAs(secret, move2);
    PairScores(secret, move1, move2);
    RedGained(secret, move1, move2, Pad(scorer(move1), NumPositions), Pad(scorer(move2), NumPositions));
  }

  /** Two guesses scored as two WHITEs and as two WHITEs and a RED: any
      scores agreeing with the secret's counts differ by one RED. */
  lemma RedGained(secret: Code, move1: Code, move2: Code, score1: multiset<Peg>, score2: multiset<Peg>)
    requires ScoredAs(multiset{White, White}, secret, move1) && ScoredAs(multiset{White, White, Red}, secret, move2)
    requires ScoredAs(score1, secret, move1) && ScoredAs(score2, secret, move2)
    ensures ScoreDelta(score1, score2) == Delta(0, 1)
  {
  }

  /** The guesses [2,5,0,0] then [3,5,0,2] against the secret [3,5,5,0]
      with the rules as written: an honest scorer, and yet the second
      guess stops the game, because the two-position rule excludes the
      secret. */
  lemma AsWrittenGameStops(secret: Code, move1: Code, move2: Code, scorer: Code -> multiset<Peg>)
    requires secret == [3, 5, 5, 0] && move1 == [2, 5, 0, 0] && move2 == [3, 5, 0, 2]
    requires Game.Honest(scorer, secret)
    ensures MakeMove(Game.State([], []), move1, scorer, Some(secret), false).Success?
    ensures MakeMove(MakeMove(Game.State([], []), move1, scorer, Some(secret), false).value,
                     move2, scorer, Some(secret), false).Failure?
  {
    FirstMoveGoesOn(move1, scorer, secret, false);
    var g1 := MakeMove(Game.State([], []), move1, scorer, Some(secret), false).value;
    PairListing(move1, move2);
    CounterDelta(secret, move1, move2, scorer);
    PairRuleAsWrittenFails(secret, move1, move2, Pad(scorer(move1), NumPositions), Pad(scorer(move2), NumPositions));
    SecondMoveStops(g1, move1, move2, scorer, secret);
  }
}
