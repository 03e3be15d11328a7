/** Feedback scoring (Scores.score and Score.score): a first pass marks exact
    matches WHITE, a second pass gives each remaining guess position the first
    unused secret position of its colour, as RED. */
module Scoring {
  import opened Wrappers
  import opened Codes
  import opened Pegs

  // ---------------------------------------------------------------------
  // The greedy algorithm, pass by pass.

  /** The state of the two passes: the peg each guess position has earned so
      far (Blank while it has none, White for the source's `matched`), and
      the secret positions already consumed (`used`). */
  datatype Pass = Pass(outcome: seq<Peg>, used: seq<bool>)

  predicate WellShaped(p: Pass) {
    |p.outcome| == NumPositions && |p.used| == NumPositions
  }

  /** The first loop: every exact match is WHITE, and its secret position is
      used up. */
  function FirstPass(secret: Code, move: Code): (p: Pass)
    ensures WellShaped(p)
  {
    Pass([ExactPeg(secret, move, 0), ExactPeg(secret, move, 1), ExactPeg(secret, move, 2), ExactPeg(secret, move, 3)],
         [move[0] == secret[0], move[1] == secret[1], move[2] == secret[2], move[3] == secret[3]])
  }

  function ExactPeg(secret: Code, move: Code, i: Pos): Peg {
    if move[i] == secret[i] then White else Blank
  }

  /** The inner loop of the second pass: the first secret position j, from
      `from` on, with i != j, j not used and the colours equal. */
  function FindRed(secret: Code, move: Code, used: seq<bool>, i: Pos, from: nat): (r: Option<Pos>)
    requires |used| == NumPositions && from <= NumPositions
    ensures r.Some? ==> from <= r.value && RedTarget(secret, move, used, i, r.value)
    ensures r.Some? ==> forall j: Pos :: from <= j < r.value ==> !RedTarget(secret, move, used, i, j)
    ensures r.None? <==> forall j: Pos :: from <= j ==> !RedTarget(secret, move, used, i, j)
    decreases NumPositions - from
  {
    if from == NumPositions then None
    else if RedTarget(secret, move, used, i, from) then Some(from as Pos)
    else FindRed(secret, move, used, i, from + 1)
  }

  /** Secret position j may pay for a RED at guess position i. */
  predicate RedTarget(secret: Code, move: Code, used: seq<bool>, i: Pos, j: Pos)
    requires |used| == NumPositions
  {
    i != j && !used[j] && move[i] == secret[j]
  }

  /** One iteration of the second pass, for guess position i. */
  function RedStep(secret: Code, move: Code, p: Pass, i: Pos): (r: Pass)
    requires WellShaped(p)
    ensures WellShaped(r)
    ensures p.outcome[i] == White ==> r == p
    ensures r != p ==> p.outcome[i] != White && r.outcome == p.outcome[i := Red]
    ensures r != p ==> exists j: Pos :: RedTarget(secret, move, p.used, i, j) && r.used == p.used[j := true]
    ensures r == p <==> p.outcome[i] == White || forall j: Pos :: !RedTarget(secret, move, p.used, i, j)
  {
    if p.outcome[i] == White then p
    else
      match FindRed(secret, move, p.used, i, 0)
      case None => p
      case Some(j) => Pass(p.outcome[i := Red], p.used[j := true])
  }

  /** The second loop, from guess position k on. */
  function SecondPass(secret: Code, move: Code, p: Pass, k: nat): (r: Pass)
    requires WellShaped(p) && k <= NumPositions
    ensures WellShaped(r)
    decreases NumPositions - k
  {
    if k == NumPositions then p
    else SecondPass(secret, move, RedStep(secret, move, p, k), k + 1)
  }

  /** The peg each guess position earns: White, Red, or Blank for nothing. */
  function Outcomes(secret: Code, move: Code): (o: seq<Peg>)
    ensures |o| == NumPositions
  {
    SecondPass(secret, move, FirstPass(secret, move), 0).outcome
  }

  /** Scores.score: the multiset of RED and WHITE pegs. */
  function Feedback(secret: Code, move: Code): (r: multiset<Peg>)
    ensures r[Blank] == 0 && r[Ignore] == 0
    ensures |r| <= NumPositions
  {
    var o := Outcomes(secret, move);
    OutcomesShape(secret, move);
    PegCount(multiset(o));
    multiset(o)[Blank := 0]
  }

  /** Score.score: the same pegs, padded with Blank by the Score constructor. */
  function ScoreOf(secret: Code, move: Code): (s: Score)
    ensures s.Valid()
    ensures s.pegs == Pad(Feedback(secret, move), NumPositions)
  {
    var o := Outcomes(secret, move);
    OutcomesShape(secret, move);
    PadFeedback(secret, move);
    Score(multiset(o))
  }

  /** Padding the RED/WHITE pegs restores the Blank outcomes. */
  lemma PadFeedback(secret: Code, move: Code)
    ensures Pad(Feedback(secret, move), NumPositions) == multiset(Outcomes(secret, move))
  {
    OutcomesShape(secret, move);
    OutcomeCount(Outcomes(secret, move), Ignore);
    PadRestoresBlanks(multiset(Outcomes(secret, move)));
  }

  lemma PadRestoresBlanks(o: multiset<Peg>)
    requires o[Ignore] == 0 && |o| == NumPositions
    ensures Pad(o[Blank := 0], NumPositions) == o
  {
    var f := o[Blank := 0];
    PegCount(f);
    PegCount(o);
    var padded := Pad(f, NumPositions);
    forall p: Peg ensures padded[p] == o[p] {
    }
    assert padded == o;
  }

  // ---------------------------------------------------------------------
  // The reference: per-position masks and per-colour counts.

  type Mask = m: seq<bool> | |m| == NumPositions witness [false, false, false, false]

  /** How many positions the mask selects hold colour c in s. */
  function Occ(s: Code, mask: Mask, c: Colour): nat {
    (if mask[0] && s[0] == c then 1 else 0) + (if mask[1] && s[1] == c then 1 else 0)
    + (if mask[2] && s[2] == c then 1 else 0) + (if mask[3] && s[3] == c then 1 else 0)
  }

  /** Number of selected positions. */
  function CountTrue(mask: Mask): nat {
    (if mask[0] then 1 else 0) + (if mask[1] then 1 else 0) + (if mask[2] then 1 else 0) + (if mask[3] then 1 else 0)
  }

  function Min(a: nat, b: nat): nat {
    if a < b then a else b
  }

  /** The colours two selections share, counted with multiplicity: the size
      of the multiset intersection, summed colour by colour from c on. */
  function Common(a: Code, ma: Mask, b: Code, mb: Mask, c: nat): nat
    requires c <= NumColours
    decreases NumColours - c
  {
    if c == NumColours then 0
    else Min(Occ(a, ma, c), Occ(b, mb, c)) + Common(a, ma, b, mb, c + 1)
  }

  /** The positions where guess and secret differ: those still open after the
      first pass. */
  function Inexact(secret: Code, move: Code): Mask {
    [move[0] != secret[0], move[1] != secret[1], move[2] != secret[2], move[3] != secret[3]]
  }

  /** The positions where guess and secret agree. */
  function Exact(secret: Code, move: Code): Mask {
    [move[0] == secret[0], move[1] == secret[1], move[2] == secret[2], move[3] == secret[3]]
  }

  const Everywhere: Mask := [true, true, true, true]

  /** The number of RED pegs the greedy pass must produce: the colours the
      open guess positions and the open secret positions share. */
  function RedReference(secret: Code, move: Code): nat {
    Common(move, Inexact(secret, move), secret, Inexact(secret, move), 0)
  }

  /** The number of pegs, RED or WHITE, a score must hold: the colours guess
      and secret share. */
  function TotalReference(secret: Code, move: Code): nat {
    Common(move, Everywhere, secret, Everywhere, 0)
  }

  lemma OccMember(s: Code, mask: Mask, c: Colour)
    ensures Occ(s, mask, c) > 0 <==> exists j: Pos :: mask[j] && s[j] == c
  {
    if Occ(s, mask, c) > 0 {
      if mask[0] && s[0] == c { assert mask[0] && s[0] == c; }
      else if mask[1] && s[1] == c { assert mask[1] && s[1] == c; }
      else if mask[2] && s[2] == c { assert mask[2] && s[2] == c; }
      else { assert mask[3] && s[3] == c; }
    }
  }

  /** Summing a selection's colour counts gives the number of positions. */
  lemma {:induction false} OccTotal(s: Code, mask: Mask, c: nat)
    requires c <= NumColours
    ensures OccSum(s, mask, c) == (if mask[0] && s[0] >= c then 1 else 0) + (if mask[1] && s[1] >= c then 1 else 0)
                                + (if mask[2] && s[2] >= c then 1 else 0) + (if mask[3] && s[3] >= c then 1 else 0)
    decreases NumColours - c
  {
    if c < NumColours {
      OccTotal(s, mask, c + 1);
    }
  }

  function OccSum(s: Code, mask: Mask, c: nat): nat
    requires c <= NumColours
    decreases NumColours - c
  {
    if c == NumColours then 0 else Occ(s, mask, c) + OccSum(s, mask, c + 1)
  }

  lemma CountTrueIsOccSum(s: Code, mask: Mask)
    ensures CountTrue(mask) == OccSum(s, mask, 0)
  {
    OccTotal(s, mask, 0);
  }

  /** The multiset of a four-peg sequence counts the positions holding p. */
  lemma OutcomeCount(o: seq<Peg>, p: Peg)
    requires |o| == NumPositions
    ensures multiset(o)[p] == CountTrue(PegMask(o, p))
  {
    assert o == [o[0]] + [o[1]] + [o[2]] + [o[3]];
  }

  // ---------------------------------------------------------------------
  // The invariant of the second pass.

  function PegMask(o: seq<Peg>, p: Peg): Mask
    requires |o| == NumPositions
  {
    [o[0] == p, o[1] == p, o[2] == p, o[3] == p]
  }

  /** Open positions below k: those the second pass has visited. */
  function OpenBefore(secret: Code, move: Code, k: nat): Mask {
    [move[0] != secret[0] && 0 < k, move[1] != secret[1] && 1 < k,
     move[2] != secret[2] && 2 < k, move[3] != secret[3] && 3 < k]
  }

  /** Open secret positions already paid for a RED. */
  function UsedOpen(secret: Code, move: Code, used: seq<bool>): Mask
    requires |used| == NumPositions
  {
    [used[0] && move[0] != secret[0], used[1] && move[1] != secret[1],
     used[2] && move[2] != secret[2], used[3] && move[3] != secret[3]]
  }

  function Unused(used: seq<bool>): Mask
    requires |used| == NumPositions
  {
    [!used[0], !used[1], !used[2], !used[3]]
  }

  /** After visiting the guess positions below k: exact positions are WHITE and
      used; open positions are RED or Blank, Blank from k on; and for every
      colour, the RED guess positions, the used open secret positions and the
      greedy intersection of visited open guess positions with open secret
      positions hold equally many of it. */
  ghost predicate Invariant(secret: Code, move: Code, p: Pass, k: nat) {
    Shape(secret, move, p, k) && Balanced(secret, move, p, k)
  }

  ghost predicate Shape(secret: Code, move: Code, p: Pass, k: nat) {
    && WellShaped(p)
    && (forall i: Pos :: move[i] == secret[i] ==> p.outcome[i] == White && p.used[i])
    && (forall i: Pos :: move[i] != secret[i] ==> p.outcome[i] == Red || p.outcome[i] == Blank)
    && (forall i: Pos :: k <= i && move[i] != secret[i] ==> p.outcome[i] == Blank)
  }

  ghost predicate Balanced(secret: Code, move: Code, p: Pass, k: nat)
    requires WellShaped(p)
  {
    && (forall c: Colour :: Occ(move, PegMask(p.outcome, Red), c) == Occ(secret, UsedOpen(secret, move, p.used), c))
    && (forall c: Colour :: Occ(move, PegMask(p.outcome, Red), c)
                            == Min(Occ(move, OpenBefore(secret, move, k), c), Occ(secret, Inexact(secret, move), c)))
  }

  lemma FirstPassInvariant(secret: Code, move: Code)
    ensures Invariant(secret, move, FirstPass(secret, move), 0)
  {
  }

  /** A RED is found for open position k exactly when the visited open guess
      positions hold fewer of its colour than the open secret positions. */
  lemma FindsRedIff(secret: Code, move: Code, p: Pass, k: Pos)
    requires Invariant(secret, move, p, k) && move[k] != secret[k]
    ensures (exists j: Pos :: RedTarget(secret, move, p.used, k, j))
        <==> Occ(move, OpenBefore(secret, move, k), move[k]) < Occ(secret, Inexact(secret, move), move[k])
  {
    OpenSplit(secret, move, p.used, move[k]);
    TargetIffAvailable(secret, move, p.used, k);
  }

  /** With every exact position used, the open secret positions are the used
      open ones plus the unused ones. */
  lemma OpenSplit(secret: Code, move: Code, used: seq<bool>, c: Colour)
    requires |used| == NumPositions
    requires forall i: Pos :: move[i] == secret[i] ==> used[i]
    ensures Occ(secret, Inexact(secret, move), c) == Occ(secret, UsedOpen(secret, move, used), c) + Occ(secret, Unused(used), c)
  {
  }

  /** A target for open position k exists exactly when some unused secret
      position holds its colour. */
  lemma TargetIffAvailable(secret: Code, move: Code, used: seq<bool>, k: Pos)
    requires |used| == NumPositions && move[k] != secret[k]
    ensures (exists j: Pos :: RedTarget(secret, move, used, k, j)) <==> Occ(secret, Unused(used), move[k]) > 0
  {
    var c := move[k];
    OccMember(secret, Unused(used), c);
    if exists j: Pos :: RedTarget(secret, move, used, k, j) {
      var j: Pos :| RedTarget(secret, move, used, k, j);
      assert Unused(used)[j] && secret[j] == c;
    }
    if Occ(secret, Unused(used), c) > 0 {
      var j: Pos :| Unused(used)[j] && secret[j] == c;
      assert RedTarget(secret, move, used, k, j);
    }
  }

  lemma RedStepExact(secret: Code, move: Code, p: Pass, k: Pos)
    requires Invariant(secret, move, p, k) && move[k] == secret[k]
    ensures Invariant(secret, move, RedStep(secret, move, p, k), k + 1)
  {
    assert OpenBefore(secret, move, k + 1) == OpenBefore(secret, move, k);
  }

  lemma RedStepMiss(secret: Code, move: Code, p: Pass, k: Pos)
    requires Invariant(secret, move, p, k) && move[k] != secret[k]
    requires forall j: Pos :: !RedTarget(secret, move, p.used, k, j)
    ensures Invariant(secret, move, RedStep(secret, move, p, k), k + 1)
  {
    FindsRedIff(secret, move, p, k);
    var before := OpenBefore(secret, move, k);
    OpenBeforeNext(secret, move, k);
    forall c: Colour
      ensures Occ(move, PegMask(p.outcome, Red), c)
           == Min(Occ(move, OpenBefore(secret, move, k + 1), c), Occ(secret, Inexact(secret, move), c))
    {
      OccAdd(move, before, k, c);
    }
  }

  lemma RedStepHit(secret: Code, move: Code, p: Pass, k: Pos, j: Pos)
    requires Invariant(secret, move, p, k) && move[k] != secret[k]
    requires RedTarget(secret, move, p.used, k, j)
    ensures Invariant(secret, move, Pass(p.outcome[k := Red], p.used[j := true]), k + 1)
  {
    var q := Pass(p.outcome[k := Red], p.used[j := true]);
    FindsRedIff(secret, move, p, k);
    assert move[j] != secret[j];
    var reds, usedOpen, before := PegMask(p.outcome, Red), UsedOpen(secret, move, p.used), OpenBefore(secret, move, k);
    PegMaskUpdate(p.outcome, k, Red);
    UsedOpenUpdate(secret, move, p.used, j);
    OpenBeforeNext(secret, move, k);
    HitCounts(secret, move, reds, usedOpen, before, Inexact(secret, move), k, j,
              PegMask(q.outcome, Red), UsedOpen(secret, move, q.used), OpenBefore(secret, move, k + 1));
    HitShape(secret, move, p, k, j);
  }

  /** The shape half of a RED step. */
  lemma HitShape(secret: Code, move: Code, p: Pass, k: Pos, j: Pos)
    requires Shape(secret, move, p, k) && move[k] != secret[k]
    ensures Shape(secret, move, Pass(p.outcome[k := Red], p.used[j := true]), k + 1)
  {
  }

  /** The counting half of a RED step: guess position k and secret position j,
      both of colour c, join the RED, used and visited selections. */
  lemma HitCounts(secret: Code, move: Code, reds: Mask, usedOpen: Mask, before: Mask, open: Mask, k: Pos, j: Pos,
                  reds': Mask, usedOpen': Mask, before': Mask)
    requires !reds[k] && !usedOpen[j] && !before[k] && secret[j] == move[k]
    requires reds' == reds[k := true] && usedOpen' == usedOpen[j := true] && before' == before[k := true]
    requires forall c: Colour :: Occ(move, reds, c) == Occ(secret, usedOpen, c)
    requires forall c: Colour :: Occ(move, reds, c) == Min(Occ(move, before, c), Occ(secret, open, c))
    requires Occ(move, before, move[k]) < Occ(secret, open, move[k])
    ensures forall c: Colour :: Occ(move, reds', c) == Occ(secret, usedOpen', c)
    ensures forall c: Colour :: Occ(move, reds', c) == Min(Occ(move, before', c), Occ(secret, open, c))
  {
    forall c: Colour
      ensures Occ(move, reds', c) == Occ(secret, usedOpen', c)
      ensures Occ(move, reds', c) == Min(Occ(move, before', c), Occ(secret, open, c))
    {
      OccAdd(move, reds, k, c);
      OccAdd(secret, usedOpen, j, c);
      OccAdd(move, before, k, c);
    }
  }

  lemma PegMaskUpdate(o: seq<Peg>, k: Pos, p: Peg)
    requires |o| == NumPositions
    ensures PegMask(o[k := p], p) == PegMask(o, p)[k := true]
  {
    var a, b := PegMask(o[k := p], p), PegMask(o, p)[k := true];
    forall i: Pos ensures a[i] == b[i] {
    }
  }

  lemma UsedOpenUpdate(secret: Code, move: Code, used: seq<bool>, j: Pos)
    requires |used| == NumPositions && move[j] != secret[j]
    ensures UsedOpen(secret, move, used[j := true]) == UsedOpen(secret, move, used)[j := true]
  {
    var a, b := UsedOpen(secret, move, used[j := true]), UsedOpen(secret, move, used)[j := true];
    forall i: Pos ensures a[i] == b[i] {
    }
  }

  lemma OpenBeforeNext(secret: Code, move: Code, k: Pos)
    ensures move[k] != secret[k] ==> OpenBefore(secret, move, k + 1) == OpenBefore(secret, move, k)[k := true]
    ensures move[k] == secret[k] ==> OpenBefore(secret, move, k + 1) == OpenBefore(secret, move, k)
  {
    forall i: Pos ensures OpenBefore(secret, move, k + 1)[i] == (OpenBefore(secret, move, k)[i] || (i == k && move[k] != secret[k])) {
    }
  }

  /** Selecting one more position adds one occurrence of its colour. */
  lemma OccAdd(s: Code, mask: Mask, i: Pos, c: Colour)
    requires !mask[i]
    ensures Occ(s, mask[i := true], c) == Occ(s, mask, c) + (if s[i] == c then 1 else 0)
  {
  }

  lemma RedStepInvariant(secret: Code, move: Code, p: Pass, k: Pos)
    requires Invariant(secret, move, p, k)
    ensures Invariant(secret, move, RedStep(secret, move, p, k), k + 1)
  {
    if move[k] == secret[k] {
      RedStepExact(secret, move, p, k);
    } else {
      assert p.outcome[k] == Blank;
      match FindRed(secret, move, p.used, k, 0)
      case None =>
        RedStepMiss(secret, move, p, k);
      case Some(j) =>
        RedStepHit(secret, move, p, k, j);
    }
  }

  lemma {:induction false} SecondPassInvariant(secret: Code, move: Code, p: Pass, k: nat)
    requires k <= NumPositions && Invariant(secret, move, p, k)
    ensures Invariant(secret, move, SecondPass(secret, move, p, k), NumPositions)
    decreases NumPositions - k
  {
    if k < NumPositions {
      RedStepInvariant(secret, move, p, k);
      SecondPassInvariant(secret, move, RedStep(secret, move, p, k), k + 1);
    }
  }

  lemma OutcomesInvariant(secret: Code, move: Code)
    ensures Invariant(secret, move, SecondPass(secret, move, FirstPass(secret, move), 0), NumPositions)
  {
    FirstPassInvariant(secret, move);
    SecondPassInvariant(secret, move, FirstPass(secret, move), 0);
  }

  /** Every position earns White exactly when it is an exact match, and
      otherwise Red or Blank. */
  lemma OutcomesShape(secret: Code, move: Code)
    ensures forall i: Pos :: Outcomes(secret, move)[i] == White <==> move[i] == secret[i]
    ensures forall i: Pos :: Outcomes(secret, move)[i] != Ignore
  {
    OutcomesInvariant(secret, move);
  }

  // ---------------------------------------------------------------------
  // What the scores mean.

  /** Counting a selection colour by colour: when every colour's count
      equals the shared count of two selections, the totals agree. */
  lemma {:induction false} OccSumIsCommon(s: Code, mask: Mask, a: Code, ma: Mask, b: Code, mb: Mask, c: nat)
    requires c <= NumColours
    requires forall x: Colour :: Occ(s, mask, x) == Min(Occ(a, ma, x), Occ(b, mb, x))
    ensures OccSum(s, mask, c) == Common(a, ma, b, mb, c)
    decreases NumColours - c
  {
    if c < NumColours {
      OccSumIsCommon(s, mask, a, ma, b, mb, c + 1);
    }
  }

  /** WHITE pegs: one per position where guess and secret agree, that is four
      less the positions where they differ. */
  lemma WhiteCount(secret: Code, move: Code)
    ensures Feedback(secret, move)[White] == CountTrue(Exact(secret, move))
    ensures Feedback(secret, move)[White] == NumPositions - |Diff(secret, move)|
    ensures ScoreOf(secret, move).Count(White) == NumPositions - |Diff(secret, move)|
  {
    var o := Outcomes(secret, move);
    OutcomesShape(secret, move);
    OutcomeCount(o, White);
    assert PegMask(o, White) == Exact(secret, move);
    DiffAsUnion(secret, move);
    DisjointUnionCard(DiffAt(secret, move, 0), DiffAt(secret, move, 1), DiffAt(secret, move, 2), DiffAt(secret, move, 3));
  }

  /** RED pegs: the greedy matching pairs up as many open positions as the
      multiset intersection of the open guess colours and the open secret
      colours allows. */
  lemma RedCount(secret: Code, move: Code)
    ensures Feedback(secret, move)[Red] == RedReference(secret, move)
    ensures ScoreOf(secret, move).Count(Red) == RedReference(secret, move)
  {
    var final := SecondPass(secret, move, FirstPass(secret, move), 0);
    OutcomesInvariant(secret, move);
    var reds := PegMask(final.outcome, Red);
    assert OpenBefore(secret, move, NumPositions) == Inexact(secret, move);
    OccSumIsCommon(move, reds, move, Inexact(secret, move), secret, Inexact(secret, move), 0);
    CountTrueIsOccSum(move, reds);
    OutcomeCount(final.outcome, Red);
  }

  /** Shared colours split into the exact positions and the shared colours of
      the open positions. */
  lemma {:induction false} CommonSplit(secret: Code, move: Code, c: nat)
    requires c <= NumColours
    ensures Common(move, Everywhere, secret, Everywhere, c)
         == OccSum(move, Exact(secret, move), c) + Common(move, Inexact(secret, move), secret, Inexact(secret, move), c)
    decreases NumColours - c
  {
    if c < NumColours {
      CommonSplit(secret, move, c + 1);
      OccPartition(move, Exact(secret, move), Inexact(secret, move), c);
      OccPartition(secret, Exact(secret, move), Inexact(secret, move), c);
      OccExactAgree(secret, move, c);
    }
  }

  /** Occurrences split over two complementary masks. */
  lemma OccPartition(s: Code, m1: Mask, m2: Mask, c: Colour)
    requires forall i: Pos :: m1[i] != m2[i]
    ensures Occ(s, Everywhere, c) == Occ(s, m1, c) + Occ(s, m2, c)
  {
    assert m1[0] != m2[0] && m1[1] != m2[1] && m1[2] != m2[2] && m1[3] != m2[3];
  }

  /** On the exact positions guess and secret hold the same colours. */
  lemma OccExactAgree(secret: Code, move: Code, c: Colour)
    ensures Occ(move, Exact(secret, move), c) == Occ(secret, Exact(secret, move), c)
  {
  }

  /** All pegs together: WHITE plus RED is the number of colours guess and
      secret share, counted with multiplicity. */
  lemma TotalCount(secret: Code, move: Code)
    ensures Feedback(secret, move)[White] + Feedback(secret, move)[Red] == TotalReference(secret, move)
  {
    WhiteCount(secret, move);
    CountTrueIsOccSum(move, Exact(secret, move));
    CommonSplit(secret, move, 0);
    RedCount(secret, move);
  }

  /** Sharing is symmetric. */
  lemma {:induction false} CommonSymmetric(a: Code, ma: Mask, b: Code, mb: Mask, c: nat)
    requires c <= NumColours
    ensures Common(a, ma, b, mb, c) == Common(b, mb, a, ma, c)
    decreases NumColours - c
  {
    if c < NumColours {
      CommonSymmetric(a, ma, b, mb, c + 1);
    }
  }

  /** Two valid scores with the same RED and WHITE counts are equal. */
  lemma ScoreFromCounts(s1: Score, s2: Score)
    requires s1.Valid() && s2.Valid()
    requires s1.Count(Red) == s2.Count(Red) && s1.Count(White) == s2.Count(White)
    ensures s1 == s2
  {
    PegCount(s1.pegs);
    PegCount(s2.pegs);
    assert s1.pegs[Red] == s2.pegs[Red] && s1.pegs[White] == s2.pegs[White];
    assert s1.pegs[Ignore] == 0 == s2.pegs[Ignore];
    assert s1.pegs[Blank] == s2.pegs[Blank];
    forall p: Peg ensures s1.pegs[p] == s2.pegs[p] {
      assert p == Red || p == White || p == Blank || p == Ignore;
    }
    assert s1.pegs == s2.pegs;
  }

  /** Scoring is symmetric: swapping guess and secret gives the same score. */
  lemma ScoreSymmetric(a: Code, b: Code)
    ensures ScoreOf(a, b) == ScoreOf(b, a)
    ensures Feedback(a, b) == Feedback(b, a)
  {
    WhiteCount(a, b);
    WhiteCount(b, a);
    DiffSymmetric(a, b);
    RedCount(a, b);
    RedCount(b, a);
    assert Inexact(a, b) == Inexact(b, a);
    CommonSymmetric(b, Inexact(a, b), a, Inexact(a, b), 0);
    ScoreFromCounts(ScoreOf(a, b), ScoreOf(b, a));
    forall p: Peg ensures Feedback(a, b)[p] == Feedback(b, a)[p] {
    }
    assert Feedback(a, b) == Feedback(b, a);
  }

  /** A code scored against itself earns four WHITEs and nothing else. */
  lemma SelfScore(m: Code)
    ensures Feedback(m, m) == multiset{White, White, White, White}
    ensures ScoreOf(m, m) == Score(multiset{White, White, White, White})
  {
    WhiteCount(m, m);
    EqualIffNoDiff(m, m);
    var f := Feedback(m, m);
    PegCount(f);
    assert f == multiset{White, White, White, White} by {
      forall p: Peg ensures f[p] == multiset{White, White, White, White}[p] {
      }
    }
  }

  /** The feedback in closed form: WHITEs from the differing positions,
      REDs from the open-colour intersection. */
  lemma FeedbackIsTally(secret: Code, move: Code)
    ensures Feedback(secret, move) == Tally(CountTrue(Exact(secret, move)), RedReference(secret, move))
  {
    WhiteCount(secret, move);
    RedCount(secret, move);
    TallyOf(Feedback(secret, move));
  }

  /** A RED for guess position k is paid for by a secret position j other
      than k, of the same colour, not yet used, and not an exact match. */
  lemma RedPaidByOpenPosition(secret: Code, move: Code, p: Pass, k: Pos)
    requires Invariant(secret, move, p, k)
    requires RedStep(secret, move, p, k) != p
    ensures exists j: Pos :: j != k && !p.used[j] && move[k] == secret[j] && move[j] != secret[j]
                          && RedStep(secret, move, p, k).used == p.used[j := true]
  {
    var j: Pos :| RedTarget(secret, move, p.used, k, j) && RedStep(secret, move, p, k).used == p.used[j := true];
    assert move[j] != secret[j];
  }

  /** Each secret position pays for at most one peg: there are exactly as
      many REDs as open secret positions used up. */
  lemma RedsUseDistinctPositions(secret: Code, move: Code)
    ensures var final := SecondPass(secret, move, FirstPass(secret, move), 0);
            Feedback(secret, move)[Red] == CountTrue(UsedOpen(secret, move, final.used))
  {
    var final := SecondPass(secret, move, FirstPass(secret, move), 0);
    OutcomesInvariant(secret, move);
    var reds := PegMask(final.outcome, Red);
    var usedOpen := UsedOpen(secret, move, final.used);
    OccSumAgree(move, reds, secret, usedOpen, 0);
    CountTrueIsOccSum(move, reds);
    CountTrueIsOccSum(secret, usedOpen);
    OutcomeCount(final.outcome, Red);
  }

  lemma {:induction false} OccSumAgree(a: Code, ma: Mask, b: Code, mb: Mask, c: nat)
    requires c <= NumColours
    requires forall x: Colour :: Occ(a, ma, x) == Occ(b, mb, x)
    ensures OccSum(a, ma, c) == OccSum(b, mb, c)
    decreases NumColours - c
  {
    if c < NumColours {
      OccSumAgree(a, ma, b, mb, c + 1);
    }
  }

  /** The balance of the finished second pass, per colour: the REDs of a
      colour equal the open secret positions of that colour used up, and
      the smaller of the open occurrences in guess and secret. */
  lemma FinalBalance(secret: Code, move: Code, final: Pass, c: Colour)
    requires final == SecondPass(secret, move, FirstPass(secret, move), 0)
    ensures final.outcome == Outcomes(secret, move) && WellShaped(final)
    ensures Occ(move, PegMask(final.outcome, Red), c) == Occ(secret, UsedOpen(secret, move, final.used), c)
    ensures Occ(move, PegMask(final.outcome, Red), c)
            == Min(Occ(move, Inexact(secret, move), c), Occ(secret, Inexact(secret, move), c))
  {
    OutcomesInvariant(secret, move);
    assert OpenBefore(secret, move, NumPositions) == Inexact(secret, move);
  }

  /** A colour that sits at an open guess position and at an open secret
      position earns a RED for some guess position of that colour. */
  lemma OpenMatchEarnsRed(secret: Code, move: Code, p: Pos, q: Pos)
    requires move[p] != secret[p] && move[q] != secret[q] && secret[q] == move[p]
    ensures exists i: Pos :: Outcomes(secret, move)[i] == Red && move[i] == move[p]
  {
    var c := move[p];
    var o := Outcomes(secret, move);
    FinalBalance(secret, move, SecondPass(secret, move, FirstPass(secret, move), 0), c);
    OccMember(move, Inexact(secret, move), c);
    OccMember(secret, Inexact(secret, move), c);
    OccMember(move, PegMask(o, Red), c);
  }

  /** A RED at guess position p is paid by an open secret position q != p
      holding the guess colour. */
  lemma RedHasSource(secret: Code, move: Code, p: Pos)
    requires Outcomes(secret, move)[p] == Red
    ensures move[p] != secret[p]
    ensures exists q: Pos :: q != p && move[q] != secret[q] && secret[q] == move[p]
  {
    var o := Outcomes(secret, move);
    RedIsOpen(secret, move, p);
    var usedOpen := RedsAreUsedOpen(secret, move, move[p]);
    RedSource(secret, move, o, usedOpen, p);
  }

  lemma RedSource(secret: Code, move: Code, o: seq<Peg>, usedOpen: Mask, p: Pos)
    requires |o| == NumPositions && o[p] == Red && move[p] != secret[p]
    requires Occ(move, PegMask(o, Red), move[p]) == Occ(secret, usedOpen, move[p])
    requires forall j: Pos :: usedOpen[j] ==> move[j] != secret[j]
    ensures exists q: Pos :: q != p && move[q] != secret[q] && secret[q] == move[p]
  {
    PaidFrom(secret, move, PegMask(o, Red), usedOpen, p);
  }

  /** The secret positions the REDs used up: open, and per colour as many
      as the REDs of that colour. */
  lemma RedsAreUsedOpen(secret: Code, move: Code, c: Colour) returns (usedOpen: Mask)
    ensures Occ(move, PegMask(Outcomes(secret, move), Red), c) == Occ(secret, usedOpen, c)
    ensures forall j: Pos :: usedOpen[j] ==> move[j] != secret[j]
  {
    var final := SecondPass(secret, move, FirstPass(secret, move), 0);
    FinalBalance(secret, move, final, c);
    usedOpen := UsedOpen(secret, move, final.used);
  }

  lemma RedIsOpen(secret: Code, move: Code, p: Pos)
    requires Outcomes(secret, move)[p] == Red
    ensures move[p] != secret[p]
  {
    OutcomesShape(secret, move);
  }

  lemma PaidFrom(secret: Code, move: Code, reds: Mask, usedOpen: Mask, p: Pos)
    requires reds[p]
    requires Occ(move, reds, move[p]) == Occ(secret, usedOpen, move[p])
    requires forall j: Pos :: usedOpen[j] ==> move[j] != secret[j]
    ensures exists q: Pos :: usedOpen[q] && secret[q] == move[p]
  {
    OccMember(move, reds, move[p]);
    OccMember(secret, usedOpen, move[p]);
  }

  /** Shared colours summed out over the six colours. */
  lemma CommonUnfold(a: Code, ma: Mask, b: Code, mb: Mask)
    ensures Common(a, ma, b, mb, 0) == Min(Occ(a, ma, 0), Occ(b, mb, 0)) + Min(Occ(a, ma, 1), Occ(b, mb, 1))
      + Min(Occ(a, ma, 2), Occ(b, mb, 2)) + Min(Occ(a, ma, 3), Occ(b, mb, 3))
      + Min(Occ(a, ma, 4), Occ(b, mb, 4)) + Min(Occ(a, ma, 5), Occ(b, mb, 5))
  {
    assert Common(a, ma, b, mb, NumColours) == 0;
  }

  // The scores the unit tests expect, secret first and guess second.

  lemma ScoreVectorAllExact(secret: Code, move: Code)
    requires secret == [0, 1, 2, 3] && move == [0, 1, 2, 3]
    ensures Feedback(secret, move) == multiset{White, White, White, White}
  {
    FeedbackIsTally(secret, move);
    var x := Inexact(secret, move);
    CommonUnfold(move, x, secret, x);
    assert CountTrue(Exact(secret, move)) == 4;
    assert RedReference(secret, move) == 0;
    assert Tally(4, 0) == multiset{White, White, White, White};
  }

  lemma ScoreVectorThreeExact(secret: Code, move: Code)
    requires secret == [0, 1, 2, 2] && move == [0, 1, 2, 3]
    ensures Feedback(secret, move) == multiset{White, White, White}
  {
    FeedbackIsTally(secret, move);
    var x := Inexact(secret, move);
    CommonUnfold(move, x, secret, x);
    assert CountTrue(Exact(secret, move)) == 3;
    assert RedReference(secret, move) == 0;
    assert Tally(3, 0) == multiset{White, White, White};
  }

  lemma ScoreVectorTwoExact(secret: Code, move: Code)
    requires secret == [0, 2, 2, 2] && move == [0, 1, 2, 3]
    ensures Feedback(secret, move) == multiset{White, White}
  {
    FeedbackIsTally(secret, move);
    var x := Inexact(secret, move);
    CommonUnfold(move, x, secret, x);
    assert CountTrue(Exact(secret, move)) == 2;
    assert RedReference(secret, move) == 0;
    assert Tally(2, 0) == multiset{White, White};
  }

  lemma ScoreVectorOneExact(secret: Code, move: Code)
    requires secret == [2, 2, 2, 2] && move == [0, 1, 2, 3]
    ensures Feedback(secret, move) == multiset{White}
  {
    FeedbackIsTally(secret, move);
    var x := Inexact(secret, move);
    CommonUnfold(move, x, secret, x);
    assert CountTrue(Exact(secret, move)) == 1;
    assert RedReference(secret, move) == 0;
    assert Tally(1, 0) == multiset{White};
  }

  lemma ScoreVectorTwoReds(secret: Code, move: Code)
    requires secret == [0, 2, 2, 3] && move == [1, 2, 3, 2]
    ensures Feedback(secret, move) == multiset{Red, Red, White}
  {
    FeedbackIsTally(secret, move);
    var x := Inexact(secret, move);
    CommonUnfold(move, x, secret, x);
    assert CountTrue(Exact(secret, move)) == 1;
    assert RedReference(secret, move) == 2;
    assert Tally(1, 2) == multiset{Red, Red, White};
  }

  lemma ScoreVectorThreeReds(secret: Code, move: Code)
    requires secret == [0, 2, 2, 3] && move == [1, 0, 3, 2]
    ensures Feedback(secret, move) == multiset{Red, Red, Red}
  {
    FeedbackIsTally(secret, move);
    var x := Inexact(secret, move);
    CommonUnfold(move, x, secret, x);
    assert Min(Occ(move, x, 0), Occ(secret, x, 0)) == 1 && Min(Occ(move, x, 1), Occ(secret, x, 1)) == 0;
    assert Min(Occ(move, x, 2), Occ(secret, x, 2)) == 1 && Min(Occ(move, x, 3), Occ(secret, x, 3)) == 1;
    assert CountTrue(Exact(secret, move)) == 0;
    assert RedReference(secret, move) == 3;
    assert Tally(0, 3) == multiset{Red, Red, Red};
  }

  lemma ScoreVectorNothing(secret: Code, move: Code)
    requires secret == [0, 1, 2, 2] && move == [3, 3, 4, 5]
    ensures Feedback(secret, move) == multiset{}
  {
    FeedbackIsTally(secret, move);
    var x := Inexact(secret, move);
    CommonUnfold(move, x, secret, x);
    assert CountTrue(Exact(secret, move)) == 0;
    assert RedReference(secret, move) == 0;
    assert Tally(0, 0) == multiset{};
  }
}
