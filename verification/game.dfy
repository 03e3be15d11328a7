/** Game.play and Game.makeMove: two fixed opening guesses, then guesses
    drawn from the solver, each scored by the caller's scorer and turned
    into constraints on the secret, for at most eight guesses. */
module Game {
  import opened Wrappers
  import opened Codes
  import opened Pegs
  import opened Scoring
  import opened Constraints
  import opened Builders
  import opened ScoreSoundness
  import opened Rules
  import opened Solver

  /** Game.MAX_MOVES. */
  const MaxMoves: nat := 8

  /** The static opening guesses 0123 and 4123. */
  const Openings: seq<Code> := [[0, 1, 2, 3], [4, 1, 2, 3]]

  /** The winning score. */
  const FourWhites: multiset<Peg> := multiset{White, White, White, White}

  /** One guess and the (padded) score recorded for it. */
  datatype Turn = Turn(move: Code, score: multiset<Peg>)

  /** The guesses so far, in order, and the constraints imposed so far. */
  datatype State = State(turns: seq<Turn>, store: seq<Constraint>)

  /** Result: the solution count before the last guess, whether the game
      was won, and the guesses with their scores. */
  datatype GameResult = GameResult(solutionsCount: nat, won: bool, moves: seq<Code>, scores: seq<multiset<Peg>>)

  /** A scorer that reports the true feedback of the secret. */
  ghost predicate Honest(scorer: Code -> multiset<Peg>, secret: Code) {
    forall m: Code {:trigger Feedback(secret, m)} :: scorer(m) == Feedback(secret, m)
  }

  /** Every recorded score agrees with the secret's counts. */
  ghost predicate Recorded(turns: seq<Turn>, secret: Code) {
    forall i :: 0 <= i < |turns| ==> ScoredAs(turns[i].score, secret, turns[i].move)
  }

  /** Game.hasWon: the last guess scored four WHITEs, which under an honest
      scorer is exactly when that guess is the secret. */
  predicate HasWon(g: State)
    requires |g.turns| > 0
    ensures forall scorer: Code -> multiset<Peg>, secret: Code ::
              Played(g.turns, scorer) && Honest(scorer, secret) ==>
              (HasWon(g) <==> g.turns[|g.turns| - 1].move == secret)
  {
    WonMeaning(g.turns);
    g.turns[|g.turns| - 1].score == FourWhites
  }

  lemma WonMeaning(turns: seq<Turn>)
    requires |turns| > 0
    ensures forall scorer: Code -> multiset<Peg>, secret: Code ::
              Played(turns, scorer) && Honest(scorer, secret) ==>
              (turns[|turns| - 1].score == FourWhites <==> turns[|turns| - 1].move == secret)
  {
    var last := turns[|turns| - 1];
    forall scorer: Code -> multiset<Peg>, secret: Code | Played(turns, scorer) && Honest(scorer, secret)
      ensures last.score == FourWhites <==> last.move == secret
    {
      HonestScore(scorer, secret, last.move);
    }
  }

  function Moves(turns: seq<Turn>): (r: seq<Code>)
    ensures |r| == |turns| && forall i :: 0 <= i < |turns| ==> r[i] == turns[i].move
  {
    if |turns| == 0 then [] else Moves(turns[..|turns| - 1]) + [turns[|turns| - 1].move]
  }

  function Scores(turns: seq<Turn>): (r: seq<multiset<Peg>>)
    ensures |r| == |turns| && forall i :: 0 <= i < |turns| ==> r[i] == turns[i].score
  {
    if |turns| == 0 then [] else Scores(turns[..|turns| - 1]) + [turns[|turns| - 1].score]
  }

  /** The diff constraints between each earlier guess, in order, and the
      new one; `guarded` as for DiffConstraints. */
  function DiffsWith(turns: seq<Turn>, move: Code, score: multiset<Peg>, guarded: bool): seq<Constraint>
  {
    if |turns| == 0 then []
    else
      var last := turns[|turns| - 1];
      DiffsWith(turns[..|turns| - 1], move, score, guarded) + DiffConstraints(last.move, move, last.score, score, guarded)
  }

  /** The new guess and every guess so far have four distinct colours. */
  predicate DistinctGuesses(turns: seq<Turn>, move: Code) {
    HasDistinctColours(move) && forall i :: 0 <= i < |turns| ==> HasDistinctColours(turns[i].move)
  }

  /** Diff constraints against correctly scored guesses hold of the secret:
      always with the corrected rule, and with the rule as written when
      every guess has four distinct colours. */
  lemma {:induction false} DiffsWithSound(turns: seq<Turn>, move: Code, score: multiset<Peg>, secret: Code, guarded: bool)
    requires Recorded(turns, secret) && ScoredAs(score, secret, move)
    requires guarded || DistinctGuesses(turns, move)
    ensures AllHold(DiffsWith(turns, move, score, guarded), secret)
  {
    if |turns| > 0 {
      var last := turns[|turns| - 1];
      var front := turns[..|turns| - 1];
      assert Recorded(front, secret) by {
        forall i | 0 <= i < |front| ensures ScoredAs(front[i].score, secret, front[i].move) {
          assert front[i] == turns[i];
        }
      }
      assert guarded || DistinctGuesses(front, move) by {
        if !guarded {
          forall i | 0 <= i < |front| ensures HasDistinctColours(front[i].move) {
            assert front[i] == turns[i];
          }
        }
      }
      DiffsWithSound(front, move, score, secret, guarded);
      if guarded {
        DiffConstraintsSound(secret, last.move, move, last.score, score);
      } else {
        DiffConstraintsAsWrittenSound(secret, last.move, move, last.score, score);
      }
      AllHoldConcat(DiffsWith(front, move, score, guarded), DiffConstraints(last.move, move, last.score, score, guarded), secret);
    }
  }

  /** The state after recording and constraining a guess: the score is
      padded when stored, the score constraint is built from the raw score,
      and from the second guess on every guess so far (the new one
      included) contributes its diff constraints. */
  function Imposed(g: State, move: Code, scorer: Code -> multiset<Peg>, guarded: bool): State {
    var raw := scorer(move);
    var turns := g.turns + [Turn(move, Pad(raw, NumPositions))];
    var diffs := if |turns| > 1 then DiffsWith(turns, move, Pad(raw, NumPositions), guarded) else [];
    State(turns, g.store + [ScoreConstraint(move, raw)] + diffs)
  }

  /** What an honest scorer's score tells about the secret: the score
      constraint holds of it, the padded score agrees with its counts, and
      the padded score is four WHITEs exactly when the guess is the secret. */
  lemma HonestScore(scorer: Code -> multiset<Peg>, secret: Code, move: Code)
    requires Honest(scorer, secret)
    ensures Eval(ScoreConstraint(move, scorer(move)), secret)
    ensures ScoredAs(Pad(scorer(move), NumPositions), secret, move)
    ensures Pad(scorer(move), NumPositions) == FourWhites <==> move == secret
  {
    assert scorer(move) == Feedback(secret, move);
    ScoreConstraintSound(secret, move);
    FeedbackScoredAs(secret, move);
    WinIffSecret(secret, move);
  }

  /** Appending a constraint and a block of constraints that hold keeps a
      store that holds. */
  lemma StoreGrows(store: seq<Constraint>, c: Constraint, more: seq<Constraint>, secret: Code)
    requires AllHold(store, secret) && Eval(c, secret) && AllHold(more, secret)
    ensures AllHold(store + [c] + more, secret)
  {
    ImposeKeepsSecret(store, c, secret);
    AllHoldConcat(store + [c], more, secret);
  }

  /** Recording a correctly scored guess keeps the record correct. */
  lemma RecordedGrows(turns: seq<Turn>, t: Turn, secret: Code)
    requires Recorded(turns, secret) && ScoredAs(t.score, secret, t.move)
    ensures Recorded(turns + [t], secret)
  {
    var all := turns + [t];
    forall i | 0 <= i < |all| ensures ScoredAs(all[i].score, secret, all[i].move) {
      if i < |turns| {
        assert all[i] == turns[i];
      }
    }
  }

  /** With an honest scorer the secret survives every guess: the store
      still holds of it and every recorded score is its true score. With
      the rule as written this needs guesses of four distinct colours. */
  lemma ImposedKeepsSecret(g: State, move: Code, scorer: Code -> multiset<Peg>, secret: Code, guarded: bool)
    requires Honest(scorer, secret) && AllHold(g.store, secret) && Recorded(g.turns, secret)
    requires guarded || DistinctGuesses(g.turns, move)
    ensures AllHold(Imposed(g, move, scorer, guarded).store, secret)
    ensures Recorded(Imposed(g, move, scorer, guarded).turns, secret)
  {
    HonestScore(scorer, secret, move);
    var score := Pad(scorer(move), NumPositions);
    var turns := g.turns + [Turn(move, score)];
    RecordedGrows(g.turns, Turn(move, score), secret);
    var diffs := if |turns| > 1 then DiffsWith(turns, move, score, guarded) else [];
    if |turns| > 1 {
      assert guarded || DistinctGuesses(turns, move) by {
        if !guarded {
          forall i | 0 <= i < |turns| ensures HasDistinctColours(turns[i].move) {
            if i < |g.turns| {
              assert turns[i] == g.turns[i];
            }
          }
        }
      }
      DiffsWithSound(turns, move, score, secret, guarded);
    }
    StoreGrows(g.store, ScoreConstraint(move, scorer(move)), diffs, secret);
  }

  /** Game.makeMove: record and constrain the guess, then count the
      solutions, failing when none is left. With an honest scorer it never
      fails and the secret keeps satisfying the store, for the corrected
      rule always and for the rule as written when every guess has four
      distinct colours. */
  method MakeMove(g: State, move: Code, scorer: Code -> multiset<Peg>, guarded: bool, ghost secret: Code)
    returns (r: Result<State>)
    ensures r.Failure? <==> forall m: Code :: !AllHold(Imposed(g, move, scorer, guarded).store, m)
    ensures r.Success? ==> r.value.store == Imposed(g, move, scorer, guarded).store
    ensures r.Success? ==> r.value.turns == g.turns + [Turn(move, Pad(scorer(move), NumPositions))]
    ensures (&& Honest(scorer, secret) && AllHold(g.store, secret) && Recorded(g.turns, secret)
             && (guarded || DistinctGuesses(g.turns, move))) ==>
      r.Success? && AllHold(r.value.store, secret) && Recorded(r.value.turns, secret)
  {
    var next := Imposed(g, move, scorer, guarded);
    CountSolutionsFails(next.store);
    if Honest(scorer, secret) && AllHold(g.store, secret) && Recorded(g.turns, secret)
      && (guarded || DistinctGuesses(g.turns, move)) {
      ImposedKeepsSecret(g, move, scorer, secret, guarded);
    }
    var count := CountSolutions(next.store);
    if count.Failure? {
      return Failure("No solutions found");
    }
    return Success(next);
  }

  /** Under an honest scorer a guess is recorded as four WHITEs exactly
      when it is the secret. */
  lemma WinIffSecret(secret: Code, move: Code)
    ensures Pad(Feedback(secret, move), NumPositions) == FourWhites <==> move == secret
  {
    WhiteCount(secret, move);
    EqualIffNoDiff(secret, move);
    if move == secret {
      SelfScore(secret);
    }
  }

  /** The facts play keeps about the guesses so far: each score is the
      padded score the scorer gave, the openings come first, and no guess
      before the last was a win. */
  ghost predicate Played(turns: seq<Turn>, scorer: Code -> multiset<Peg>) {
    && (forall i :: 0 <= i < |turns| ==> turns[i].score == Pad(scorer(turns[i].move), NumPositions))
    && (|turns| > 0 ==> turns[0].move == Openings[0])
    && (|turns| > 1 ==> turns[1].move == Openings[1])
    && (forall i :: 0 <= i < |turns| - 1 ==> turns[i].score != FourWhites)
  }

  /** A further guess, scored by the scorer, after a guess that did not
      win; while openings remain it is the next opening. */
  lemma PlayedGrows(turns: seq<Turn>, scorer: Code -> multiset<Peg>, move: Code)
    requires Played(turns, scorer)
    requires |turns| < |Openings| ==> move == Openings[|turns|]
    requires |turns| > 0 ==> turns[|turns| - 1].score != FourWhites
    ensures Played(turns + [Turn(move, Pad(scorer(move), NumPositions))], scorer)
  {
    var all := turns + [Turn(move, Pad(scorer(move), NumPositions))];
    forall i | 0 <= i < |all| ensures all[i].score == Pad(scorer(all[i].move), NumPositions) {
      if i < |turns| {
        assert all[i] == turns[i];
      }
    }
    forall i | 0 <= i < |all| - 1 ensures all[i].score != FourWhites {
      assert all[i] == turns[i];
    }
  }

  /** The loop of Game.play: the openings, then solver guesses, until a win
      or seven guesses. */
  method OpeningMoves(scorer: Code -> multiset<Peg>, guarded: bool, ghost secret: Code) returns (r: Result<State>)
    ensures guarded && Honest(scorer, secret) ==>
      r.Success? && AllHold(r.value.store, secret) && Recorded(r.value.turns, secret)
    ensures r.Success? ==> 0 < |r.value.turns| < MaxMoves && Played(r.value.turns, scorer)
    ensures r.Success? && !HasWon(r.value) ==> |r.value.turns| == MaxMoves - 1
  {
    var g := State([], []);
    while |g.turns| < MaxMoves - 1
      invariant |g.turns| <= MaxMoves - 1
      invariant Played(g.turns, scorer)
      invariant |g.turns| > 0 ==> !HasWon(g)
      invariant guarded && Honest(scorer, secret) ==> AllHold(g.store, secret) && Recorded(g.turns, secret)
    {
      var move;
      if |g.turns| < |Openings| {
        move := Openings[|g.turns|];
      } else {
        move :- Search(g.store, Moves(g.turns));
      }
      ghost var before := g.turns;
      g :- MakeMove(g, move, scorer, guarded, secret);
      assert Played(before, scorer);
      assert |before| < |Openings| ==> move == Openings[|before|];
      assert |before| > 0 ==> before[|before| - 1].score != FourWhites;
      PlayedGrows(before, scorer, move);
      if HasWon(g) {
        return Success(g);
      }
    }
    return Success(g);
  }

  /** The end of Game.play: a game not yet won gets one last solver guess. */
  method LastMove(g: State, scorer: Code -> multiset<Peg>, guarded: bool, ghost secret: Code) returns (r: Result<State>)
    requires 0 < |g.turns| < MaxMoves && Played(g.turns, scorer)
    requires !HasWon(g) ==> |g.turns| == MaxMoves - 1
    ensures guarded && Honest(scorer, secret) && AllHold(g.store, secret) && Recorded(g.turns, secret) ==>
      r.Success? && Recorded(r.value.turns, secret)
    ensures r.Success? ==> 0 < |r.value.turns| <= MaxMoves && Played(r.value.turns, scorer)
    ensures r.Success? && !HasWon(r.value) ==> |r.value.turns| == MaxMoves
    ensures r.Success? && HasWon(g) ==> r.value == g
  {
    if HasWon(g) {
      return Success(g);
    }
    var move :- Search(g.store, Moves(g.turns));
    var next :- MakeMove(g, move, scorer, guarded, secret);
    PlayedGrows(g.turns, scorer, move);
    return Success(next);
  }

  /** The result play reports for its final state. */
  function Report(count: nat, g: State): GameResult
    requires |g.turns| > 0
  {
    GameResult(count, HasWon(g), Moves(g.turns), Scores(g.turns))
  }

  /** What Game.play promises about its result: at most eight guesses, the
      openings first, every score the scorer's padded score, a win exactly
      when the last score is four WHITEs and never before it, and eight
      guesses when the game was lost. */
  predicate Faithful(res: GameResult, scorer: Code -> multiset<Peg>) {
    && 1 <= |res.moves| <= MaxMoves && |res.scores| == |res.moves|
    && res.moves[0] == Openings[0]
    && (|res.moves| > 1 ==> res.moves[1] == Openings[1])
    && (forall i :: 0 <= i < |res.moves| ==> res.scores[i] == Pad(scorer(res.moves[i]), NumPositions))
    && (res.won <==> res.scores[|res.scores| - 1] == FourWhites)
    && (forall i :: 0 <= i < |res.scores| - 1 ==> res.scores[i] != FourWhites)
    && (!res.won ==> |res.moves| == MaxMoves)
  }

  /** The report of a finished game is faithful. */
  lemma ReportFacts(count: nat, g: State, scorer: Code -> multiset<Peg>)
    requires 0 < |g.turns| <= MaxMoves && Played(g.turns, scorer)
    requires !HasWon(g) ==> |g.turns| == MaxMoves
    ensures Faithful(Report(count, g), scorer)
  {
  }

  /** Game.play, which is `Play(scorer, false, secret)`; `Play(scorer,
      true, secret)` plays with the corrected one-position rule. The scorer
      stands for the human or computer opponent; `secret` is the code an
      honest scorer scores against. With the corrected rule an honest
      scorer's game never fails; an honest scorer's game that ends is won
      exactly when the last guess is the secret. */
  method Play(scorer: Code -> multiset<Peg>, guarded: bool, ghost secret: Code) returns (r: Result<GameResult>)
    ensures guarded && Honest(scorer, secret) ==> r.Success?
    ensures r.Success? ==> Faithful(r.value, scorer) && r.value.solutionsCount > 0
    ensures Honest(scorer, secret) && r.Success? ==>
      (r.value.won <==> r.value.moves[|r.value.moves| - 1] == secret)
  {
    var g :- OpeningMoves(scorer, guarded, secret);
    CountSolutionsFails(g.store);
    var count :- CountSolutions(g.store);
    g :- LastMove(g, scorer, guarded, secret);
    ReportFacts(count, g, scorer);
    return Success(Report(count, g));
  }
}
