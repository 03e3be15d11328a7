/** Codes: the four-peg guesses and secrets of the game (Move.java, plus the
    move helpers Game.java and TestScores.java duplicate on integer lists). */
module Codes {
  import opened Wrappers

  const NumPositions: nat := 4
  const NumColours: nat := 6
  /** 6^4, the number of distinct codes. */
  const NumCodes: nat := 1296

  /** A colour is the ordinal of Move.Peg (BLUE, GREEN, PURPLE, ORANGE, YELLOW, PINK). */
  type Colour = c: int | 0 <= c < NumColours
  type Pos = p: int | 0 <= p < NumPositions
  /** A guess or a secret: exactly four colours, position 0 first. */
  type Code = s: seq<Colour> | |s| == NumPositions witness [0, 0, 0, 0]

  /** The int constructor indexes Peg.values(), so an argument outside 0..5
      raises an index exception: modelled as None. */
  function FromInts(a: int, b: int, c: int, d: int): (r: Option<Code>)
    ensures r.Some? <==> 0 <= a < 6 && 0 <= b < 6 && 0 <= c < 6 && 0 <= d < 6
    ensures r.Some? ==> r.value[0] == a && r.value[1] == b && r.value[2] == c && r.value[3] == d
  {
    if 0 <= a < NumColours && 0 <= b < NumColours && 0 <= c < NumColours && 0 <= d < NumColours
    then Some([a, b, c, d])
    else None
  }

  /** The list constructor rejects a list that does not hold exactly four pegs. */
  function FromList(pegs: seq<Colour>): (r: Option<Code>)
    ensures r.Some? <==> |pegs| == 4
    ensures r.Some? ==> forall p: Pos :: r.value[p] == pegs[p]
  {
    if |pegs| == NumPositions then Some(pegs) else None
  }

  /** The set of colours a code uses (Sets.newHashSet(pegs)). */
  function ColourSet(m: Code): set<Colour> {
    set c: Colour | c in m
  }

  predicate HasDistinctColours(m: Code) {
    |ColourSet(m)| == NumPositions
  }

  predicate PairwiseDistinct(m: Code) {
    forall i: Pos, j: Pos :: i < j ==> m[i] != m[j]
  }

  /** The set-size test of the source means exactly "no colour repeats". */
  lemma DistinctColoursIff(m: Code)
    ensures HasDistinctColours(m) <==> PairwiseDistinct(m)
  {
    var s := ColourSet(m);
    assert s == {m[0], m[1], m[2], m[3]};
    if PairwiseDistinct(m) {
      assert |{m[0]}| == 1;
      assert |{m[0], m[1]}| == 2;
      assert |{m[0], m[1], m[2]}| == 3;
    } else {
      var i: Pos, j: Pos :| i < j && m[i] == m[j];
      var rest := set k: Pos | k != j :: m[k];
      assert s == rest by {
        forall c | c in s ensures c in rest {
          var k: Pos :| m[k] == c;
          if k == j { assert m[i] == c; }
        }
      }
      var others: set<Pos> := {0, 1, 2, 3} - {j};
      assert rest == set k | k in others :: m[k];
      CardImageAtMost(m, others);
    }
  }

  /** The image of a set of positions is no larger than the set itself. */
  lemma {:induction false} CardImageAtMost(m: Code, ps: set<Pos>)
    ensures |set k | k in ps :: m[k]| <= |ps|
    decreases ps
  {
    if ps != {} {
      var k0 :| k0 in ps;
      var rest := ps - {k0};
      CardImageAtMost(m, rest);
      assert (set k | k in ps :: m[k]) == (set k | k in rest :: m[k]) + {m[k0]};
    }
  }

  /** Positions where two codes differ (Move.diff, Game.diff, TestScores.diff). */
  function Diff(m1: Code, m2: Code): (r: set<Pos>)
    ensures forall p: Pos :: p in r <==> m1[p] != m2[p]
  {
    set p: Pos | 0 <= p < NumPositions && m1[p] != m2[p]
  }

  lemma DiffSymmetric(m1: Code, m2: Code)
    ensures Diff(m1, m2) == Diff(m2, m1)
  {
  }

  /** Two codes are equal (Move.equals, list equality) iff they differ nowhere. */
  lemma EqualIffNoDiff(m1: Code, m2: Code)
    ensures m1 == m2 <==> Diff(m1, m2) == {}
  {
    if Diff(m1, m2) == {} {
      assert forall p: Pos :: m1[p] == m2[p] by {
        forall p: Pos ensures m1[p] == m2[p] {
          assert p !in Diff(m1, m2);
        }
      }
    }
  }

  /** Number of positions where two codes differ (TestScores.dist). */
  function Dist(m1: seq<Colour>, m2: seq<Colour>): nat
    requires |m1| == |m2|
  {
    if |m1| == 0 then 0
    else (if m1[0] != m2[0] then 1 else 0) + Dist(m1[1..], m2[1..])
  }

  /** TestScores.dist counts exactly the positions that Diff collects. */
  lemma DistIsDiffSize(m1: Code, m2: Code)
    ensures Dist(m1, m2) == |Diff(m1, m2)|
  {
    DiffAsUnion(m1, m2);
    DisjointUnionCard(DiffAt(m1, m2, 0), DiffAt(m1, m2, 1), DiffAt(m1, m2, 2), DiffAt(m1, m2, 3));
    DistUnfold(m1, m2);
  }

  lemma DiffAsUnion(m1: Code, m2: Code)
    ensures Diff(m1, m2) == DiffAt(m1, m2, 0) + DiffAt(m1, m2, 1) + DiffAt(m1, m2, 2) + DiffAt(m1, m2, 3)
  {
    var u := DiffAt(m1, m2, 0) + DiffAt(m1, m2, 1) + DiffAt(m1, m2, 2) + DiffAt(m1, m2, 3);
    forall p: int ensures p in Diff(m1, m2) <==> p in u {
      if 0 <= p < NumPositions {
        assert p in Diff(m1, m2) <==> m1[p] != m2[p];
      }
    }
  }

  /** {p} when the codes differ at p, else {}. */
  function DiffAt(m1: Code, m2: Code, p: Pos): (r: set<Pos>)
    ensures r <= {p} && (p in r <==> m1[p] != m2[p])
    ensures |r| == if m1[p] != m2[p] then 1 else 0
  {
    if m1[p] != m2[p] then {p} else {}
  }

  lemma DisjointUnionCard(d0: set<Pos>, d1: set<Pos>, d2: set<Pos>, d3: set<Pos>)
    requires d0 <= {0} && d1 <= {1} && d2 <= {2} && d3 <= {3}
    ensures |d0 + d1 + d2 + d3| == |d0| + |d1| + |d2| + |d3|
  {
    assert |d0 + d1| == |d0| + |d1|;
    assert |d0 + d1 + d2| == |d0 + d1| + |d2|;
  }

  lemma DistUnfold(m1: Code, m2: Code)
    ensures Dist(m1, m2) == |DiffAt(m1, m2, 0)| + |DiffAt(m1, m2, 1)| + |DiffAt(m1, m2, 2)| + |DiffAt(m1, m2, 3)|
  {
    var b0, b1, b2, b3 := |DiffAt(m1, m2, 0)|, |DiffAt(m1, m2, 1)|, |DiffAt(m1, m2, 2)|, |DiffAt(m1, m2, 3)|;
    assert m1[3..][1..] == [] && m2[3..][1..] == [];
    assert Dist(m1[3..], m2[3..]) == b3;
    assert m1[2..][1..] == m1[3..] && m2[2..][1..] == m2[3..];
    assert Dist(m1[2..], m2[2..]) == b2 + b3;
    assert m1[1..][1..] == m1[2..] && m2[1..][1..] == m2[2..];
    assert Dist(m1[1..], m2[1..]) == b1 + b2 + b3;
  }

  /** Positions of a set in increasing order: the iteration order of the
      source's position sets (ALL_POS is a LinkedHashSet of 0,1,2,3 and small
      Integers hash to themselves). */
  function Ascending(s: set<Pos>): (r: seq<Pos>)
    ensures forall p: Pos :: p in r <==> p in s
    ensures forall i, j :: 0 <= i < j < |r| ==> r[i] < r[j]
    ensures |r| == |s|
  {
    var r := AscendingFrom(s, 0);
    DistinctCard(r);
    var rs: set<Pos> := set x | x in r;
    assert |rs| == |r|;
    assert rs == s by {
      forall p: Pos ensures p in rs <==> p in s {
      }
    }
    r
  }

  function AscendingFrom(s: set<Pos>, k: nat): (r: seq<Pos>)
    requires k <= NumPositions
    ensures forall p: Pos :: p in r <==> p in s && k <= p
    ensures forall i :: 0 <= i < |r| ==> k <= r[i]
    ensures forall i, j :: 0 <= i < j < |r| ==> r[i] < r[j]
    decreases NumPositions - k
  {
    if k == NumPositions then []
    else if k in s then [k as Pos] + AscendingFrom(s, k + 1)
    else AscendingFrom(s, k + 1)
  }

  /** A sequence without repetitions has as many elements as its set. */
  lemma {:induction false} DistinctCard<T>(r: seq<T>)
    requires forall i, j :: 0 <= i < j < |r| ==> r[i] != r[j]
    ensures |set x | x in r| == |r|
  {
    if |r| > 0 {
      DistinctCard(r[1..]);
      var tail := set x | x in r[1..];
      assert (set x | x in r) == {r[0]} + tail;
      assert r[0] !in tail;
    }
  }

  /** All positions, in order. */
  const AllPos: set<Pos> := {0, 1, 2, 3}

  // ---------------------------------------------------------------------
  // The 6^4 codes in lexicographic order (the order in which the source's
  // four nested colour loops, and the solver's input-order / smallest-value
  // labelling, visit them).

  /** Position 0 is the most significant digit in base 6. */
  function Encode(m: Code): (n: nat)
    ensures n < NumCodes
  {
    var a: int, b: int, c: int, d: int := m[0], m[1], m[2], m[3];
    ((a * 6 + b) * 6 + c) * 6 + d
  }

  function Decode(n: nat): (m: Code)
    requires n < NumCodes
  {
    var q1 := n / 6;
    var q2 := q1 / 6;
    var q3 := q2 / 6;
    [q3, q2 % 6, q1 % 6, n % 6]
  }

  lemma DecodeEncode(m: Code)
    ensures Decode(Encode(m)) == m
  {
    var a: int, b: int, c: int, d: int := m[0], m[1], m[2], m[3];
    var n := Encode(m);
    assert n / 6 == (a * 6 + b) * 6 + c && n % 6 == d;
    assert ((a * 6 + b) * 6 + c) / 6 == a * 6 + b && ((a * 6 + b) * 6 + c) % 6 == c;
    assert (a * 6 + b) / 6 == a && (a * 6 + b) % 6 == b;
  }

  lemma EncodeDecode(n: nat)
    requires n < NumCodes
    ensures Encode(Decode(n)) == n
  {
    var q1 := n / 6;
    var q2 := q1 / 6;
    var q3 := q2 / 6;
    assert n == q1 * 6 + n % 6;
    assert q1 == q2 * 6 + q1 % 6;
    assert q2 == q3 * 6 + q2 % 6;
  }

  /** Strict lexicographic order on codes, position 0 first. */
  predicate LexLess(a: Code, b: Code) {
    || a[0] < b[0]
    || (a[0] == b[0] && a[1] < b[1])
    || (a[0] == b[0] && a[1] == b[1] && a[2] < b[2])
    || (a[0] == b[0] && a[1] == b[1] && a[2] == b[2] && a[3] < b[3])
  }

  /** The encoding is an order isomorphism between lexicographic order and
      the natural numbers below 1296. */
  lemma EncodeMonotone(a: Code, b: Code)
    ensures LexLess(a, b) <==> Encode(a) < Encode(b)
  {
  }

  /** Every code, in lexicographic order. */
  function AllCodes(): (r: seq<Code>)
    ensures |r| == NumCodes
    ensures forall i :: 0 <= i < |r| ==> r[i] == Decode(i)
  {
    seq(NumCodes, n requires 0 <= n < NumCodes => Decode(n))
  }

  lemma AllCodesComplete(m: Code)
    ensures AllCodes()[Encode(m)] == m
  {
    DecodeEncode(m);
  }

  lemma AllCodesSorted(i: nat, j: nat)
    requires i < j < NumCodes
    ensures LexLess(AllCodes()[i], AllCodes()[j])
  {
    EncodeDecode(i);
    EncodeDecode(j);
    EncodeMonotone(Decode(i), Decode(j));
  }
}
