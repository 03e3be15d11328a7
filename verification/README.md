# Mastermind deduction engine, modelled in Dafny

A model of the deduction engine of a Java Mastermind solver (package
`com.tom_e_white.mastermind`). The code breaker guesses four pegs of six
colours. The code maker answers with WHITE pegs (right colour, right place)
and RED pegs (right colour, wrong place). Each scored guess becomes a
constraint on the secret. Extra constraints are derived from pairs of
guesses that differ in one, two or three positions. A solver then proposes
the next guess among the codes that satisfy every constraint.

The peg names are the source's own. A WHITE peg means an exact match and a
RED peg a colour that is elsewhere, which is the reverse of the usual
black/white convention. NONE is written `Blank` in the model, and IGNORE is
written `Ignore`.

What is modelled, file by file:

- `codes.dfy` (`Codes`): a guess or secret is a `Code`, four colours in
  0..5. It also holds the `Move` constructors, `diff`, `dist` and
  `hasDistinctColours`, and the base-6 encoding that lists all 1296 codes
  in lexicographic order.
- `pegs.dfy` (`Pegs`): feedback pegs, the padding `Score` constructor, and
  `Score.combinations` as the distinct reorderings of a peg multiset, with
  their number.
- `scoring.dfy` (`Scoring`): the two-pass greedy scoring of `Scores.score`
  and `Score.score`. It is proved equal to a reference count: WHITEs are
  the exact matches, and REDs are the colours shared by the open positions
  of guess and secret, counted with multiplicity.
- `deltas.dfy` (`Deltas`): `scoreDelta`, and the score and delta histograms
  over all 1296 codes.
- `constraints.dfy` (`Constraints`): the constraint language (atoms
  `peg p == c`, `Not`, `And`, `Or`), its meaning `Eval`, the evaluator of
  `TestedGame`, and the checked `impose`.
- `builders.dfy` (`Builders`) and `score_soundness.dfy` (`ScoreSoundness`):
  the constraint builders of `Game` and `scoreConstraint`. The score
  constraint a guess earns is proved to hold of the secret that earned it.
- `rules.dfy` (`Rules`): `imposeDiffConstraints` with its one-position and
  two-position rules, and their soundness.
- `solver.dfy` (`Solver`): the JaCoP search, replaced by a filter over all
  codes in lexicographic order. This is the order of input-order labelling
  with the smallest value first. It also holds `countSolutions` and the
  guess selection of `search`.
- `game.dfy` (`Game`): `makeMove`, `hasWon` and `play`, driven by an
  abstract scorer function.
- `positions.dfy` (`Restricted`), `older_rules.dfy` (`OlderRules`),
  `older_span.dfy` (`OlderSpan`) and `older_game.dfy` (`OlderGame`): the
  older solver kept in `TestScores`. This covers:
  - its score constraint restricted to a list of positions, with IGNORE;
  - its one-, two- and three-position rules;
  - its checked `makeMove`.
- `human_scorer.dfy` (`HumanScorer`): the character counting of
  `HumanScorer.score`.

Modelling decisions:

- The source is a snapshot in the middle of a refactoring and does not
  compile as a whole:
  - `Scores.Score` has only RED and WHITE, yet `Game` and `TestScores` use
    NONE and IGNORE;
  - `Scores.scoreCombinations`, which `Game` calls, does not exist.

  The model uses one peg type with the four kinds, and `Score.combinations`
  for the reorderings.
- The code behaves as follows, and so does the model:
  - the game loop stops after seven guesses counting the openings, then
    forces one last guess;
  - the three-position rule exists only in `TestScores`, not in `Game`;
  - the typed-feedback parse checks nothing and can yield more than four
    pegs;
  - `Game` draws "absent everywhere" after a one-position RED change for
    any pair of guesses. This is the first finding below. The game methods
    take a flag `guarded`: `Game.Play(scorer, false, secret)` is
    `Game.play` as written, and `guarded` set selects the corrected rule.
    `OlderGame.MakeMove` takes the same flag for the two- and
    three-position rules of `TestScores`.
- A scorer is a function `Code -> multiset<Peg>`. An honest scorer
  (`Game.Honest`) returns the true feedback of a secret, as
  `ComputerScorer` does. The secret is a ghost parameter of the game
  methods, and the properties about it are stated for honest scorers.
- `Game.makeMove` and `TestScores.makeMove` pad the score multiset in place
  after storing it, so the stored score is the padded one. The model stores
  `Pad(score, 4)`.
- Position sets are visited in ascending order. `ALL_POS` is an
  insertion-ordered set of 0..3, and small `Integer`s hash to themselves.
- `TestScores.diff` compares `Integer` objects with `!=`. For colours 0..5
  these are cached instances, so the comparison is by value, as `Diff`
  models it.
- `Game.search` and `Game.countSolutions` throw `IllegalStateException`
  when nothing satisfies the store. The model returns `Failure`, and
  `Game.play` propagates it.

## Model

| member | source | states |
|---|---|---|
| Codes.FromInts | src/main/java/com/tom_e_white/mastermind/Move.java:24-26 | the int constructor succeeds exactly when all four arguments are colours 0..5, and then holds them in order |
| Codes.FromList | src/main/java/com/tom_e_white/mastermind/Move.java:32-35 | the list constructor succeeds exactly for four pegs, and keeps them position by position |
| Codes.DistinctColoursIff | src/main/java/com/tom_e_white/mastermind/Move.java:41-43 | the set-size test holds exactly when no colour repeats |
| Codes.Diff | src/main/java/com/tom_e_white/mastermind/Move.java:45-53 | a position is in the diff exactly when the two codes differ there |
| Codes.DiffSymmetric | src/main/java/com/tom_e_white/mastermind/Move.java:45-53 | diff does not depend on the order of its arguments |
| Codes.EqualIffNoDiff | src/main/java/com/tom_e_white/mastermind/Move.java:55-63 | two moves are equal exactly when their diff is empty, so diff(m, m) is empty |
| Codes.DistIsDiffSize | src/test/com/tom_e_white/mastermind/TestScores.java:343-351 | dist counts exactly the positions diff collects |
| Codes.EncodeMonotone | src/main/java/com/tom_e_white/mastermind/Game.java:79-82 | the code numbering is an order isomorphism with lexicographic order, which is the order input-order labelling with the smallest value first visits codes in |
| Codes.AllCodesComplete | src/main/java/com/tom_e_white/mastermind/Game.java:79-82 | every code is enumerated, at the index of its encoding |
| Codes.AllCodesSorted | src/main/java/com/tom_e_white/mastermind/Game.java:79-82 | the enumeration is strictly increasing in lexicographic order |
| Pegs.Pad | src/main/java/com/tom_e_white/mastermind/Score.java:31-37 | padding fills up to the target size with NONE and changes no other count |
| Pegs.PadIdempotent | src/main/java/com/tom_e_white/mastermind/Game.java:219-221 | padding a padded score changes nothing, so padding a stored score in place again is harmless |
| Pegs.MakeScore | src/main/java/com/tom_e_white/mastermind/Score.java:31-37 | the constructor refuses more than four pegs; otherwise the score keeps the RED and WHITE counts and holds exactly four pegs |
| Pegs.MakeScoreOrderInsensitive | src/main/java/com/tom_e_white/mastermind/Score.java:73-81 | two scores are equal exactly when they agree on RED and WHITE counts, whatever the order; so `new Score()` equals four NONEs |
| Pegs.CombinationsExact | src/main/java/com/tom_e_white/mastermind/Score.java:69-71 | a sequence is a combination exactly when it reorders the pegs |
| Pegs.CombinationsDistinct | src/main/java/com/tom_e_white/mastermind/Score.java:69-71 | no combination is listed twice |
| Pegs.Combos | src/main/java/com/tom_e_white/mastermind/Score.java:69-71 | the combinations of a score are exactly its four-peg reorderings, without repetition |
| Pegs.CombinationsMultinomial | src/main/java/com/tom_e_white/mastermind/Score.java:69-71 | the number of combinations is the multinomial coefficient of the four peg counts |
| Pegs.CombinationCountVectors | src/test/com/tom_e_white/mastermind/TestScore.java:36-53 | four NONEs have 1 ordering, one WHITE and three NONEs 4, a WHITE, a RED and two NONEs 12 |
| Scoring.FindRed | src/main/java/com/tom_e_white/mastermind/Scores.java:98-104 | the inner loop finds the first secret position j != i that is unused and holds the guess colour, and finds none exactly when there is none |
| Scoring.RedStep | src/main/java/com/tom_e_white/mastermind/Scores.java:94-105 | a WHITE position is skipped; otherwise a RED is added and one secret position used up exactly when a target exists |
| Scoring.Feedback | src/main/java/com/tom_e_white/mastermind/Scores.java:83-107 | the score holds only RED and WHITE pegs, at most four |
| Scoring.ScoreOf | src/main/java/com/tom_e_white/mastermind/Score.java:39-63 | Score.score is a valid score: the same pegs as Scores.score, padded with NONE |
| Scoring.OutcomesShape | src/main/java/com/tom_e_white/mastermind/Scores.java:87-93 | a guess position earns WHITE exactly when it matches the secret |
| Scoring.WhiteCount | src/main/java/com/tom_e_white/mastermind/Scores.java:87-93 | the WHITE count is the number of exact matches, four less the size of the diff |
| Scoring.RedCount | src/main/java/com/tom_e_white/mastermind/Scores.java:94-105 | the greedy pass produces as many REDs as the multiset intersection of the open guess colours and open secret colours |
| Scoring.TotalCount | src/main/java/com/tom_e_white/mastermind/Scores.java:83-107 | WHITE plus RED is the number of colours guess and secret share, counted with multiplicity |
| Scoring.FeedbackIsTally | src/main/java/com/tom_e_white/mastermind/Scores.java:83-107 | the score equals the tally of the reference WHITE and RED counts, so the greedy order does not matter |
| Scoring.ScoreSymmetric | src/main/java/com/tom_e_white/mastermind/Scores.java:83-107 | swapping guess and secret gives the same score |
| Scoring.SelfScore | src/main/java/com/tom_e_white/mastermind/Scores.java:87-93 | a code scored against itself earns four WHITEs and no RED |
| Scoring.RedPaidByOpenPosition | src/main/java/com/tom_e_white/mastermind/Scores.java:94-105 | each RED for guess position k is paid by a secret position j != k of that colour that is neither an exact match nor already used |
| Scoring.RedsUseDistinctPositions | src/main/java/com/tom_e_white/mastermind/Scores.java:94-105 | each secret position pays for at most one peg: the REDs equal the open secret positions used up |
| Scoring.RedHasSource | src/main/java/com/tom_e_white/mastermind/Scores.java:94-105 | a RED position is open, and its colour sits at another open secret position |
| Scoring.OpenMatchEarnsRed | src/main/java/com/tom_e_white/mastermind/Scores.java:94-105 | a colour at an open guess position and an open secret position earns a RED for some guess position of that colour |
| Scoring.ScoreFromCounts | src/main/java/com/tom_e_white/mastermind/Score.java:73-81 | two valid scores with equal RED and WHITE counts are equal |
| Scoring.ScoreVectorAllExact | src/test/com/tom_e_white/mastermind/TestScores.java:30-31 | secret 0123 scores four WHITEs for guess 0123 |
| Scoring.ScoreVectorThreeExact | src/test/com/tom_e_white/mastermind/TestScores.java:32-33 | secret 0122 scores three WHITEs for guess 0123 |
| Scoring.ScoreVectorTwoExact | src/test/com/tom_e_white/mastermind/TestScores.java:34-35 | secret 0222 scores two WHITEs for guess 0123 |
| Scoring.ScoreVectorOneExact | src/test/com/tom_e_white/mastermind/TestScores.java:36-37 | secret 2222 scores one WHITE for guess 0123 |
| Scoring.ScoreVectorTwoReds | src/test/com/tom_e_white/mastermind/TestScores.java:38-39 | secret 0223 scores two REDs and a WHITE for guess 1232 |
| Scoring.ScoreVectorThreeReds | src/test/com/tom_e_white/mastermind/TestScores.java:40-41 | secret 0223 scores three REDs for guess 1032 |
| Scoring.ScoreVectorNothing | src/test/com/tom_e_white/mastermind/TestScores.java:42-43 | secret 0122 scores nothing for guess 3345 |
| Deltas.ScoreDelta | src/main/java/com/tom_e_white/mastermind/Scores.java:205-207 | adding the delta to the first score's WHITE and RED counts gives the second's |
| Deltas.DeltaZeroIff | src/main/java/com/tom_e_white/mastermind/Scores.java:205-207 | for RED/WHITE scores the delta is zero exactly when the scores are equal |
| Deltas.DeltaAntisymmetric | src/main/java/com/tom_e_white/mastermind/Scores.java:205-207 | swapping the scores negates both components |
| Deltas.ScoreHistogram | src/main/java/com/tom_e_white/mastermind/Scores.java:109-125 | the histogram counts 1296 scores |
| Deltas.ScoreHistogramMembers | src/main/java/com/tom_e_white/mastermind/Scores.java:109-125 | a score is in the histogram exactly when some guess earns it against the secret |
| Deltas.DeltaHistogram | src/main/java/com/tom_e_white/mastermind/Scores.java:127-140 | the delta histogram counts 1296 deltas, one per secret |
| Deltas.DeltaHistogramMembers | src/main/java/com/tom_e_white/mastermind/Scores.java:127-140 | a delta is in the histogram exactly when some secret produces it |
| Deltas.DeltaHistogramOfSameMove | src/main/java/com/tom_e_white/mastermind/Scores.java:127-140 | a guess compared with itself only ever gives the zero delta |
| Constraints.Evaluate | src/test/com/tom_e_white/mastermind/TestedGame.java:35-66 | the evaluator's folds with `\|=` from false and `&=` from true compute the meaning of the constraint |
| Constraints.Eval | src/test/com/tom_e_white/mastermind/TestedGame.java:35-66 | a constraint holds of a secret exactly when the secret is among the codes it admits: an atom admits the codes with that colour there, Not the rest, And the codes every child admits and Or those some child admits |
| Constraints.EmptyConnectives | src/test/com/tom_e_white/mastermind/TestedGame.java:50-63 | an empty Or holds for no secret and an empty And for every secret |
| Constraints.CheckedImpose | src/test/com/tom_e_white/mastermind/TestedGame.java:20-33 | with a known secret a constraint it does not satisfy fails; otherwise, or with no secret, the constraint is appended |
| Constraints.ImposeKeepsSecret | src/test/com/tom_e_white/mastermind/TestedGame.java:20-23 | a checked imposition that succeeds keeps a store the secret satisfies satisfied |
| Builders.WhiteConstraint | src/main/java/com/tom_e_white/mastermind/Game.java:172-174 | holds exactly when the colour is at the position |
| Builders.NoneAt | src/main/java/com/tom_e_white/mastermind/Game.java:200-202 | holds exactly when the colour is not at the position |
| Builders.NoneAnywhere | src/main/java/com/tom_e_white/mastermind/Game.java:207-213 | holds exactly when the colour is at no position |
| Builders.RedMeaning | src/main/java/com/tom_e_white/mastermind/Game.java:186-195 | redConstraint(c, p, S) holds exactly when c is not at p and is at some q in S other than p |
| Builders.RedAllMeaning | src/main/java/com/tom_e_white/mastermind/Game.java:179-181 | the two-argument redConstraint takes every other position as a candidate |
| Builders.RedCandidates | src/main/java/com/tom_e_white/mastermind/Game.java:233-240 | the RED candidates of a combination are exactly its non-WHITE positions |
| Builders.ComboMeaning | src/main/java/com/tom_e_white/mastermind/Game.java:232-259 | a combination's conjunction holds exactly when every WHITE, NONE and RED of it fits the secret at its position |
| Builders.ScoreConstraint | src/main/java/com/tom_e_white/mastermind/Game.java:218-262 | the score constraint holds exactly when either the padded score is all NONE and no colour of the guess is in the secret, or some reordering of the padded score fits the secret |
| ScoreSoundness.NothingMeansAbsent | src/main/java/com/tom_e_white/mastermind/Game.java:222-229 | a score with no pegs at all means no colour of the guess is in the secret |
| ScoreSoundness.BlankMeansAbsent | src/main/java/com/tom_e_white/mastermind/Game.java:241-247 | a NONE means the colour is not at its position, and nowhere when the guess has four distinct colours |
| ScoreSoundness.OutcomesFit | src/main/java/com/tom_e_white/mastermind/Game.java:230-260 | the scoring itself, read as a combination, fits the secret |
| ScoreSoundness.ScoreConstraintSound | src/main/java/com/tom_e_white/mastermind/Game.java:218-262 | the score constraint built from the score a guess earns holds of the secret that earned it |
| Rules.Diff1Rule | src/main/java/com/tom_e_white/mastermind/Game.java:292-334 | whatever satisfies the one-position rule: no WHITE change means neither colour is at d, a WHITE gain means the new colour is at d, a WHITE loss the old one |
| Rules.Diff1Delta | src/main/java/com/tom_e_white/mastermind/Game.java:298-302 | for one changed position the WHITE delta is the change of exact match at d, and WHITE plus RED changes by shared colour gained less shared colour lost |
| Rules.Diff1RuleSound | src/main/java/com/tom_e_white/mastermind/Game.java:292-334 | the one-position rule holds of the secret whenever "absent everywhere" after a RED change is drawn only for guesses of distinct colours |
| Rules.Diff1Sound | src/main/java/com/tom_e_white/mastermind/Game.java:303-333 | the corrected one-position rule never excludes the secret |
| Rules.Diff1AsWrittenSoundWhenDistinct | src/main/java/com/tom_e_white/mastermind/Game.java:303-312 | the rule as written is sound when both guesses have four distinct colours |
| Rules.Diff1AsWrittenUnsound | src/main/java/com/tom_e_white/mastermind/Game.java:306-312 | the rule as written excludes secret 1022 after guesses 0033 and 2033 |
| Rules.Diff2 | src/main/java/com/tom_e_white/mastermind/Game.java:336-367 | the two-position rule imposes nothing or one constraint per pair of differing positions |
| Rules.Diff2Meaning | src/main/java/com/tom_e_white/mastermind/Game.java:351-367 | with no RED in either score, a WHITE gain rules the first guess's colours of D out of D and a WHITE loss the second's |
| Rules.Diff2Sound | src/main/java/com/tom_e_white/mastermind/Game.java:336-367 | the two-position rule never excludes the secret |
| Rules.OnlyPosition | src/main/java/com/tom_e_white/mastermind/Game.java:293 | the only element of a one-element set |
| Rules.DiffConstraints | src/main/java/com/tom_e_white/mastermind/Game.java:278-291 | guesses one or two positions apart get a rule, others nothing; with the rule as written or the corrected one, a one-position rule pins what the secret holds at d |
| Rules.DiffConstraintsSound | src/main/java/com/tom_e_white/mastermind/Game.java:278-291 | with the corrected one-position rule the dispatched rule never excludes the secret |
| Rules.DiffConstraintsAgree | src/main/java/com/tom_e_white/mastermind/Game.java:303-312 | the dispatch as written and the corrected one differ exactly for guesses one position apart, not both of distinct colours, with no WHITE change and a RED change of one |
| Rules.DiffConstraintsAsWrittenSound | src/main/java/com/tom_e_white/mastermind/Game.java:278-291 | the dispatch as written never excludes the secret when both guesses have distinct colours or they are not one position apart |
| Solver.Filter | src/main/java/com/tom_e_white/mastermind/Game.java:89 | labelling returns only codes that satisfy every constraint |
| Solver.FilterKeeps | src/main/java/com/tom_e_white/mastermind/Game.java:89 | labelling with searchAll misses no satisfying code |
| Solver.SolutionsExact | src/main/java/com/tom_e_white/mastermind/Game.java:78-89 | a code is a solution exactly when it satisfies the store |
| Solver.SolutionsSorted | src/main/java/com/tom_e_white/mastermind/Game.java:79-82 | solutions come in lexicographic order |
| Solver.CountSolutions | src/main/java/com/tom_e_white/mastermind/Game.java:113-133 | a successful count is the number of codes that satisfy the store, between 1 and 1296 |
| Solver.SolutionsCount | src/main/java/com/tom_e_white/mastermind/Game.java:113-128 | the search lists as many solutions as there are codes satisfying the store, each once |
| Solver.CountSolutionsFails | src/main/java/com/tom_e_white/mastermind/Game.java:124-127 | counting fails exactly when no code satisfies the store |
| Solver.Search | src/main/java/com/tom_e_white/mastermind/Game.java:78-107 | fails exactly when there is no solution; otherwise returns a solution: the least one not yet played, or, when all were played, the greatest |
| Game.DiffsWithSound | src/main/java/com/tom_e_white/mastermind/Game.java:154-158 | the rules against every correctly scored guess hold of the secret, with the corrected rule, or with the rule as written when every guess has four distinct colours |
| Game.HonestScore | src/main/java/com/tom_e_white/mastermind/Game.java:146-152 | an honest score's constraint holds of the secret, and the padded score is four WHITEs exactly when the guess is the secret |
| Game.ImposedKeepsSecret | src/main/java/com/tom_e_white/mastermind/Game.java:146-160 | with an honest scorer the store keeps holding of the secret and every recorded score is its true score, under the same condition on the rule |
| Game.MakeMove | src/main/java/com/tom_e_white/mastermind/Game.java:146-160 | fails exactly when nothing satisfies the new store; records the padded score; with an honest scorer never fails and keeps the secret, with the corrected rule or when every guess so far has four distinct colours |
| Game.WinIffSecret | src/main/java/com/tom_e_white/mastermind/Game.java:71-73 | under an honest scorer a guess is scored four WHITEs exactly when it is the secret |
| Game.HasWon | src/main/java/com/tom_e_white/mastermind/Game.java:71-73 | with the scores the scorer gave and an honest scorer, the game is won exactly when the last guess is the secret |
| Game.PlayedGrows | src/main/java/com/tom_e_white/mastermind/Game.java:48-59 | each further guess is the next opening while openings remain, and follows a guess that did not win |
| Game.OpeningMoves | src/main/java/com/tom_e_white/mastermind/Game.java:44-59 | the loop plays the openings first and stops on a win or after seven guesses; with the corrected rule an honest scorer never makes it fail |
| Game.LastMove | src/main/java/com/tom_e_white/mastermind/Game.java:60-63 | a won game is left alone; otherwise one more guess brings it to eight; with the corrected rule that guess never fails for an honest scorer |
| Game.ReportFacts | src/main/java/com/tom_e_white/mastermind/Game.java:64-68 | the result lists the guesses and padded scores in order, a win exactly when the last score is four WHITEs and never before |
| Game.Play | src/main/java/com/tom_e_white/mastermind/Game.java:35-69 | the game reports a faithful result with a positive solution count, and an honest scorer's game is won exactly when the last guess is the secret; with the corrected rule an honest scorer's game never fails |
| Restricted.ElsewhereMeaning | src/test/com/tom_e_white/mastermind/TestScores.java:247-256 | this redConstraint holds exactly when the colour is at some other position, without excluding its own |
| Restricted.PegMeaning | src/test/com/tom_e_white/mastermind/TestScores.java:276-286 | a WHITE holds when the colour is at its position, a RED when it is at another position, a NONE when it is not at its position, and an IGNORE always |
| Restricted.ComboOverMeaning | src/test/com/tom_e_white/mastermind/TestScores.java:274-287 | one combination's conjunction holds exactly when each peg fits at the position it is laid against |
| Restricted.PositionsConstraint | src/test/com/tom_e_white/mastermind/TestScores.java:268-290 | the restricted constraint holds exactly when some reordering of the score padded to the number of positions fits the secret, peg by peg at the listed positions |
| Restricted.AllPositionsSound | src/test/com/tom_e_white/mastermind/TestScores.java:264-266 | the test-side score constraint built from the earned score holds of the secret |
| OlderRules.NowhereMeaning | src/test/com/tom_e_white/mastermind/TestScores.java:531-541 | the four "not here" constraints together mean the colour is absent |
| OlderRules.EitherOrMeaning | src/test/com/tom_e_white/mastermind/TestScores.java:543-558 | both colours absent, or both at one of the other three positions |
| OlderRules.OneRuleFor | src/test/com/tom_e_white/mastermind/TestScores.java:464-496 | whatever satisfies the older one-position rule has neither colour at d after no WHITE change, the new after a gain, the old after a loss |
| OlderRules.OneRule | src/test/com/tom_e_white/mastermind/TestScores.java:449-498 | the one-position rule holds exactly when the secret meets what it demands: no WHITE change puts neither colour at d and a RED change puts the gaining colour elsewhere (for distinct guesses with equal scores, both colours absent or both elsewhere); a WHITE change puts the gaining colour at d, the other not there, and for distinct guesses the other absent or, after the opposite RED change, elsewhere |
| OlderRules.OneRuleAsserted | src/test/com/tom_e_white/mastermind/TestScores.java:464-496 | the constraints the source asserts against a known secret pin what the secret holds at d |
| OlderRules.OneRuleUnasserted | src/test/com/tom_e_white/mastermind/TestScores.java:543-558 | the unasserted part holds exactly when, for distinct guesses with equal scores, both colours are absent or both are at one of the other positions |
| OlderRules.OneRuleSplit | src/test/com/tom_e_white/mastermind/TestScores.java:464-472 | the rule is its asserted part followed by the unasserted either-or constraint |
| OlderRules.OneRuleSound | src/test/com/tom_e_white/mastermind/TestScores.java:449-498 | the older one-position rule never excludes the secret, whatever the colours |
| OlderRules.ShapeSound | src/test/com/tom_e_white/mastermind/TestScores.java:268-290 | a pattern of k pegs of one kind with NONE and IGNORE holds when enough listed positions fit that kind and enough others fit NONE |
| OlderRules.RedBound | src/test/com/tom_e_white/mastermind/TestScores.java:376-384 | for guesses of four distinct colours with equal WHITE counts, the REDs gained are at most the differing positions whose new colour sits at another position of the secret |
| OlderRules.PairRuleAsWritten | src/test/com/tom_e_white/mastermind/TestScores.java:357-399 | at most one constraint, none for equal scores; for guesses two apart, a secret meeting it has the gaining guess's colour at one differing position after a WHITE change and at both after a change of two, and after a RED change with no WHITE change one of that guess's differing colours elsewhere |
| OlderRules.PairRule | src/test/com/tom_e_white/mastermind/TestScores.java:370-384 | the guarded rule is the rule as written or nothing; it is the rule as written whenever both guesses have distinct colours or the WHITE count changed; it demands the same of the secret |
| OlderRules.TripleRuleAsWritten | src/test/com/tom_e_white/mastermind/TestScores.java:401-447 | the same for guesses three apart: a WHITE change puts a gaining colour at one differing position, a change of three at all three, a RED change one colour elsewhere |
| OlderRules.TripleRule | src/test/com/tom_e_white/mastermind/TestScores.java:414-428 | the guarded three-position rule is the rule as written or nothing, the rule as written for distinct guesses or a WHITE change |
| OlderSpan.PairShape | src/test/com/tom_e_white/mastermind/TestScores.java:370-393 | every two-position pattern is WHITEs for a WHITE change, or REDs filling the positions |
| OlderSpan.TripleShape | src/test/com/tom_e_white/mastermind/TestScores.java:414-441 | every three-position pattern has the same make-up for three positions |
| OlderSpan.WhiteSound | src/test/com/tom_e_white/mastermind/TestScores.java:385-393 | a WHITE pattern laid against the gaining guess holds of the secret |
| OlderSpan.RedSound | src/test/com/tom_e_white/mastermind/TestScores.java:376-384 | for guesses of four distinct colours a RED pattern holds of the secret |
| OlderSpan.SpanSound | src/test/com/tom_e_white/mastermind/TestScores.java:395-398 | the restricted rule holds whenever its RED patterns are imposed only on guesses of distinct colours |
| OlderSpan.PairRuleSound | src/test/com/tom_e_white/mastermind/TestScores.java:357-399 | the guarded two-position rule never excludes the secret |
| OlderSpan.TripleRuleSound | src/test/com/tom_e_white/mastermind/TestScores.java:401-447 | the guarded three-position rule never excludes the secret |
| OlderSpan.PairRuleAgrees | src/test/com/tom_e_white/mastermind/TestScores.java:371-384 | the rule as written and the guarded one differ exactly on a RED pattern for guesses not both of distinct colours |
| OlderSpan.TripleRuleAgrees | src/test/com/tom_e_white/mastermind/TestScores.java:415-428 | the same for the three-position rule |
| OlderSpan.PairRuleAsWrittenUnsound | src/test/com/tom_e_white/mastermind/TestScores.java:372-377 | secret 3550 earns {WHITE, WHITE} for 2500 and {RED, WHITE, WHITE} for 3502, yet the rule as written excludes it |
| OlderSpan.TripleRuleAsWrittenUnsound | src/test/com/tom_e_white/mastermind/TestScores.java:415-417 | secret 0012 earns {WHITE} for 2352 and {WHITE, RED} for 2514, yet the rule as written excludes it |
| OlderGame.RuleFor | src/test/com/tom_e_white/mastermind/TestScores.java:231-240 | guesses one apart get the one-position rule, two or three apart the pair or triple rule, guarded or as written; guesses 0 or 4 apart get nothing |
| OlderGame.RuleSplit | src/test/com/tom_e_white/mastermind/TestScores.java:231-240 | a rule holds exactly when its asserted and its unasserted parts hold |
| OlderGame.PartsSplit | src/test/com/tom_e_white/mastermind/TestScores.java:231-240 | the rules against every earlier guess hold exactly when their asserted and unasserted parts do |
| OlderGame.RuleForSound | src/test/com/tom_e_white/mastermind/TestScores.java:231-240 | the guarded rule for two correctly scored guesses holds of the secret |
| OlderGame.RulesWithSound | src/test/com/tom_e_white/mastermind/TestScores.java:231-240 | the guarded rules against every correctly scored guess hold of the secret |
| OlderGame.FreshSound | src/test/com/tom_e_white/mastermind/TestScores.java:216-241 | all the constraints one guess adds hold of the secret when the scores are true |
| OlderGame.FreshSplit | src/test/com/tom_e_white/mastermind/TestScores.java:216-241 | the constraints a guess adds hold exactly when the asserted ones and the unasserted either-or constraints do |
| OlderGame.ImposedKeepsSecret | src/test/com/tom_e_white/mastermind/TestScores.java:216-241 | with an honest scorer and guarded rules the store keeps holding of the secret and the record stays correct |
| OlderGame.MakeMove | src/test/com/tom_e_white/mastermind/TestScores.java:216-241 | stops exactly when an asserted constraint excludes the known secret; otherwise records the padded score and only adds constraints, and the secret stays in the store exactly when the unasserted either-or constraints hold of it; guarded and honest, it never stops and keeps the secret |
| OlderGame.FirstMoveGoesOn | src/test/com/tom_e_white/mastermind/TestScores.java:227-229 | a first guess adds no rule, so an honest first guess never stops the game |
| OlderGame.SecondRules | src/test/com/tom_e_white/mastermind/TestScores.java:231-240 | at the second guess the only rule is the one against the first guess |
| OlderGame.SecondMoveStops | src/test/com/tom_e_white/mastermind/TestScores.java:395-398 | a second guess whose rule as written excludes the secret stops the game |
| OlderGame.AsWrittenGameStops | src/test/com/tom_e_white/mastermind/TestScores.java:372-375 | with honest scores, guesses 2500 then 3502 against secret 3550 stop the game at the second guess |
| HumanScorer.ReadingCounts | src/main/java/com/tom_e_white/mastermind/HumanScorer.java:22-31 | the line reads as one WHITE per 'w' or 'W' and one RED per 'r' or 'R', and nothing else |
| HumanScorer.ReadingOrderFree | src/main/java/com/tom_e_white/mastermind/HumanScorer.java:20-31 | lines that reorder each other read as the same score |
| HumanScorer.ReadingUnbounded | src/main/java/com/tom_e_white/mastermind/HumanScorer.java:20-32 | some line reads as more than four pegs: nothing bounds the count |
| HumanScorer.AddWhites | src/main/java/com/tom_e_white/mastermind/HumanScorer.java:22-26 | the first pass adds exactly one WHITE per white key |
| HumanScorer.AddReds | src/main/java/com/tom_e_white/mastermind/HumanScorer.java:27-31 | the second pass adds exactly one RED per red key and nothing else |
| HumanScorer.ScoreLine | src/main/java/com/tom_e_white/mastermind/HumanScorer.java:15-36 | the two passes give the one-pass reading of the line, with no NONE; a line without keys scores nothing |

## Left out

- JaCoP itself (`Store`, `IntVar`, `DepthFirstSearch`) and the demo
  `Constraints.java`. The solver is a filter over the 1296 codes in
  lexicographic order. Store propagation and per-position domains are not
  modelled, because they change no solution set.
- Console I/O: `Game.main`, the prompts and `readLine` of `HumanScorer`,
  and every `report*`, `println` and `main` in `Scores` and `TestScores`.
  `Game.countSolutions` prints a report when the count equals
  `REPORT_NUM_SOLUTIONS`, and that output is not modelled.
- `HumanScorer`'s `IOException` path: reading the line is I/O. Only the
  parse of a given line is modelled.
- Floating point and randomness: `averageScore`, `randomMove` and its
  static `Random`, and the percentage totals of the statistics tests.
- The statistics drivers `TestGame` and `TestScores.testScoreDeltaFor`
  with `playGame`. The fixed four-guess opening of `playGame` is not
  modelled; its `makeMove` is.
- The unused heuristics `minDist` and `weight` of `TestScores`.
- `Result.java`, a data holder, is modelled as the `GameResult` datatype.
- `Scorer.java` and `ComputerScorer.java`: the scorer is a function
  parameter, and `ComputerScorer` is the honest scorer
  `m => Feedback(secret, m)`.
- The score maps keyed by move, in `Game.scores` and `TestScores.scores`.
  A guess played twice overwrites its score there. The model records one
  turn per guess instead. The two agree whenever guesses do not repeat,
  and `Solver.Search` only repeats a guess once every solution has been
  played.
- The test solver's `search` is not modelled separately. It selects like
  `Game.search`, which `Solver.Search` models.
- Rules.DiffConstraintsSound, Game.DiffsWithSound, Game.ImposedKeepsSecret,
  Game.MakeMove: soundness of the rule as written is promised only when
  every guess has four distinct colours, because the first finding shows
  it can exclude the secret otherwise.
- Game.OpeningMoves, Game.LastMove, Game.Play: that an honest scorer's
  game never fails is proved for the corrected rule only. For `Game.play`
  as written (`guarded` unset) the model does not establish whether an
  honest game from the openings 0123 and 4123 ever reaches the failing
  case of the first finding. The two openings have distinct colours, so
  the first two guesses are covered by `Game.MakeMove`.
- OlderGame.MakeMove: the source imposes each checked constraint
  immediately. When a later one fails its assertion, the earlier ones of
  the same guess are already in the store. The model checks all of a
  guess's constraints before adding any, and a failed game has no state
  afterwards, so the partial store is never observable.

## Findings

| source | as written | input that shows it | evidently intended | confidence | as-written member | corrected member |
|---|---|---|---|---|---|---|
| src/main/java/com/tom_e_white/mastermind/Game.java:306-312 | with no WHITE change and a RED change of one, the colour that lost is declared absent everywhere, for any pair of guesses | secret 1022; guess 0033 scores {WHITE}; guess 2033 scores {WHITE, RED}; colour 0 is declared absent, yet it is at position 1 | draw "absent everywhere" only when both guesses have four distinct colours, as the WHITE-change branches at lines 316 and 326 already do | high; proved, not executed | Rules.Diff1AsWrittenUnsound | Rules.Diff1Sound |
| src/test/com/tom_e_white/mastermind/TestScores.java:376-384 | with no WHITE change, the two-position rule lays a RED pattern ({RED, IGNORE} or {RED, RED}) against the differing positions of the guess that gained REDs | secret 3550; guess 2500 scores {WHITE, WHITE}; guess 3502 scores {RED, WHITE, WHITE}; the RED is earned by colour 5, which is at neither differing position, so the pattern excludes the secret and the checked game stops | impose the RED patterns only when they are sound, which the model proves for guesses of four distinct colours; the comment at lines 372-375 flags this rule as not strictly correct | high; proved, not executed | OlderSpan.PairRuleAsWrittenUnsound | OlderSpan.PairRuleSound |
| src/test/com/tom_e_white/mastermind/TestScores.java:415-428 | the three-position rule lays its RED patterns ({RED, IGNORE, IGNORE} up to {RED, RED, RED}) in the same way | secret 0012; guess 2352 scores {WHITE}; guess 2514 scores {WHITE, RED}; the RED is earned by colour 2 at position 0, outside the differing positions, so the pattern excludes the secret | as for the two-position rule: RED patterns only for guesses of four distinct colours | high; proved, not executed | OlderSpan.TripleRuleAsWrittenUnsound | OlderSpan.TripleRuleSound |

Both game models can run the code as written or the corrected rules:

- `Rules.DiffConstraints` with `guarded` unset dispatches to
  `Rules.Diff1AsWritten`, and with `guarded` set to `Rules.Diff1`.
- `OlderGame.MakeMove` with `guarded` unset uses
  `OlderRules.PairRuleAsWritten` and `OlderRules.TripleRuleAsWritten`, and
  with `guarded` set `OlderRules.PairRule` and `OlderRules.TripleRule`.
- `OlderGame.AsWrittenGameStops` shows the first finding's two-position
  counterpart at the level of the whole checked game: with honest scores,
  the game as written stops at the second guess.
