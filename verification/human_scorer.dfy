/** HumanScorer.score, without the console: a typed line of characters
    read as feedback. Each 'w' or 'W' is a WHITE peg, each 'r' or 'R' a
    RED peg, and every other character is skipped. Nothing bounds the
    number of pegs. */
module HumanScorer {
  import opened Codes
  import opened Pegs

  predicate IsWhiteKey(c: char) {
    c == 'w' || c == 'W'
  }

  predicate IsRedKey(c: char) {
    c == 'r' || c == 'R'
  }

  /** The pegs one typed character stands for. */
  function KeyPegs(c: char): multiset<Peg> {
    if IsWhiteKey(c) then multiset{White}
    else if IsRedKey(c) then multiset{Red}
    else multiset{}
  }

  /** The line read one character at a time, in order: an independent
      reading against which the two passes of the scorer are checked. */
  function Reading(line: string): multiset<Peg>
    decreases |line|
  {
    if |line| == 0 then multiset{} else Reading(line[..|line| - 1]) + KeyPegs(line[|line| - 1])
  }

  /** The number of WHITE keys typed, either case. */
  function WhiteKeys(line: string): nat {
    multiset(line)['w'] + multiset(line)['W']
  }

  /** The number of RED keys typed, either case. */
  function RedKeys(line: string): nat {
    multiset(line)['r'] + multiset(line)['R']
  }

  /** The reading counts the keys of each colour, in any case, and
      nothing else: other characters add no peg and there are never NONE
      or IGNORE pegs. */
  lemma {:induction false} ReadingCounts(line: string)
    ensures Reading(line) == Tally(WhiteKeys(line), RedKeys(line))
    decreases |line|
  {
    if |line| > 0 {
      var front := line[..|line| - 1];
      var c := line[|line| - 1];
      assert line == front + [c];
      ReadingCounts(front);
      KeyStep(front, c);
      TallyStep(WhiteKeys(front), RedKeys(front), c);
    }
  }

  /** Typing one more character adds its keys to the counts. */
  lemma KeyStep(front: string, c: char)
    ensures WhiteKeys(front + [c]) == WhiteKeys(front) + KeyPegs(c)[White]
    ensures RedKeys(front + [c]) == RedKeys(front) + KeyPegs(c)[Red]
  {
    assert multiset(front + [c]) == multiset(front) + multiset{c};
  }

  /** A tally grown by the pegs of one character is the tally of the
      grown counts. */
  lemma TallyStep(w: nat, r: nat, c: char)
    ensures Tally(w, r) + KeyPegs(c) == Tally(w + KeyPegs(c)[White], r + KeyPegs(c)[Red])
  {
    TallyOf(Tally(w, r) + KeyPegs(c));
  }

  /** The order of the characters does not matter: lines that are
      reorderings of each other read as the same feedback. */
  lemma ReadingOrderFree(a: string, b: string)
    requires multiset(a) == multiset(b)
    ensures Reading(a) == Reading(b)
  {
    ReadingCounts(a);
    ReadingCounts(b);
  }

  /** No bound is enforced: the reading can hold more pegs than there
      are positions, which the Score constructor would refuse. */
  lemma ReadingUnbounded()
    ensures exists line: string :: |Reading(line)| > NumPositions
  {
    var line: string := [];
    assert |Reading(line)| == 0;
    for k := 0 to NumPositions + 1
      invariant |Reading(line)| == k
    {
      ReadingGrows(line, 'w');
      line := line + ['w'];
    }
  }

  /** One more WHITE key adds one peg. */
  lemma ReadingGrows(line: string, c: char)
    requires IsWhiteKey(c)
    ensures |Reading(line + [c])| == |Reading(line)| + 1
  {
    assert (line + [c])[..|line|] == line;
  }

  /** HumanScorer.score: all WHITEs first in one pass over the line, then
      all REDs in a second. The result is the one-pass reading, so the
      pass order does not matter; a line with no keys scores nothing. */
  method ScoreLine(line: string) returns (score: multiset<Peg>)
    ensures score == Reading(line)
    ensures score[White] == WhiteKeys(line) && score[Red] == RedKeys(line)
    ensures score[Blank] == 0 && score[Ignore] == 0
    ensures WhiteKeys(line) == 0 && RedKeys(line) == 0 ==> score == multiset{}
  {
    score := AddWhites(line);
    score := AddReds(line, score);
    ReadingCounts(line);
    TallyOf(score);
  }

  /** The first pass: a WHITE for each 'w' or 'W'. */
  method AddWhites(line: string) returns (score: multiset<Peg>)
    ensures score[White] == WhiteKeys(line) && score[Red] == 0
    ensures score[Blank] == 0 && score[Ignore] == 0
  {
    score := multiset{};
    var i := 0;
    while i < |line|
      invariant 0 <= i <= |line|
      invariant score[White] == WhiteKeys(line[..i]) && score[Red] == 0
      invariant score[Blank] == 0 && score[Ignore] == 0
    {
      assert line[..i + 1] == line[..i] + [line[i]];
      KeyStep(line[..i], line[i]);
      if IsWhiteKey(line[i]) {
        score := score + multiset{White};
      }
      i := i + 1;
    }
    assert line[..i] == line;
  }

  /** The second pass: a RED for each 'r' or 'R', added to the first
      pass's pegs. */
  method AddReds(line: string, whites: multiset<Peg>) returns (score: multiset<Peg>)
    ensures score[Red] == whites[Red] + RedKeys(line)
    ensures forall p :: p != Red ==> score[p] == whites[p]
  {
    score := whites;
    var i := 0;
    while i < |line|
      invariant 0 <= i <= |line|
      invariant score[Red] == whites[Red] + RedKeys(line[..i])
      invariant forall p :: p != Red ==> score[p] == whites[p]
    {
      assert line[..i + 1] == line[..i] + [line[i]];
      KeyStep(line[..i], line[i]);
      if IsRedKey(line[i]) {
        score := score + multiset{Red};
      }
      i := i + 1;
    }
    assert line[..i] == line;
  }
}
