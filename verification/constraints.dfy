/** The constraint language the solver is fed (JaCoP's XeqC, Not, And and Or
    over the four peg variables), with the meaning TestedGame gives it. */
module Constraints {
  import opened Wrappers
  import opened Codes

  /** `Is(p, c)` is XeqC(pegs[p], c): the secret holds colour c at position p. */
  datatype Constraint =
    | Is(pos: Pos, colour: Colour)
    | Not(inner: Constraint)
    | And(all: seq<Constraint>)
    | Or(any: seq<Constraint>)

  /** The meaning of a constraint for a given secret, checked peg by peg; it
      agrees with the set of codes the constraint admits. */
  predicate Eval(c: Constraint, secret: Code)
    ensures Eval(c, secret) <==> secret in Admits(c)
    decreases c, 2
  {
    match c
    case Is(p, colour) => secret[p] == colour
    case Not(inner) => !Eval(inner, secret)
    case And(cs) => MeetMeaning(cs, secret); forall i :: 0 <= i < |cs| ==> Eval(cs[i], secret)
    case Or(cs) => JoinMeaning(cs, secret); exists i :: 0 <= i < |cs| && Eval(cs[i], secret)
  }

  /** The codes a constraint admits, as the solver sees it: an atom is the
      codes with that colour at that position, Not the complement, And the
      intersection and Or the union of the children's sets. */
  ghost function Admits(c: Constraint): iset<Code>
    decreases c, 1
  {
    match c
    case Is(p, colour) => iset s: Code | s[p] == colour
    case Not(inner) => iset s: Code | s !in Admits(inner)
    case And(cs) => Meet(cs)
    case Or(cs) => Join(cs)
  }

  ghost function Meet(cs: seq<Constraint>): iset<Code>
    decreases cs, 0
  {
    if |cs| == 0 then iset s: Code | |s| == NumPositions
    else Admits(cs[0]) * Meet(cs[1..])
  }

  ghost function Join(cs: seq<Constraint>): iset<Code>
    decreases cs, 0
  {
    if |cs| == 0 then iset{}
    else Admits(cs[0]) + Join(cs[1..])
  }

  lemma {:induction false} MeetMeaning(cs: seq<Constraint>, s: Code)
    ensures s in Meet(cs) <==> forall i :: 0 <= i < |cs| ==> Eval(cs[i], s)
    decreases cs, 1
  {
    if |cs| > 0 {
      MeetMeaning(cs[1..], s);
      assert forall i :: 1 <= i < |cs| ==> cs[i] == cs[1..][i - 1];
    }
  }

  lemma {:induction false} JoinMeaning(cs: seq<Constraint>, s: Code)
    ensures s in Join(cs) <==> exists i :: 0 <= i < |cs| && Eval(cs[i], s)
    decreases cs, 1
  {
    if |cs| > 0 {
      JoinMeaning(cs[1..], s);
      assert forall i :: 1 <= i < |cs| ==> cs[i] == cs[1..][i - 1];
    }
  }

  /** TestedGame.constraintToExpr: atoms compare the secret's colour, Not
      negates, and Or / And fold their children with |= and &= starting
      from false and true respectively. */
  method Evaluate(c: Constraint, secret: Code) returns (b: bool)
    ensures b == Eval(c, secret)
    decreases c
  {
    match c
    case Is(p, colour) =>
      b := secret[p] == colour;
    case Not(inner) =>
      var v := Evaluate(inner, secret);
      b := !v;
    case Or(cs) =>
      b := false;
      var i := 0;
      while i < |cs|
        invariant 0 <= i <= |cs|
        invariant b <==> exists k :: 0 <= k < i && Eval(cs[k], secret)
      {
        var v := Evaluate(cs[i], secret);
        b := b || v;
        i := i + 1;
      }
    case And(cs) =>
      b := true;
      var i := 0;
      while i < |cs|
        invariant 0 <= i <= |cs|
        invariant b <==> forall k :: 0 <= k < i ==> Eval(cs[k], secret)
      {
        var v := Evaluate(cs[i], secret);
        b := b && v;
        i := i + 1;
      }
  }

  /** An empty Or holds for no secret, an empty And for every secret. */
  lemma EmptyConnectives(secret: Code)
    ensures !Eval(Or([]), secret)
    ensures Eval(And([]), secret)
  {
  }

  /** And over one or two children, and Or over one child. */
  lemma EvalSmall(a: Constraint, b: Constraint, s: Code)
    ensures Eval(And([a]), s) <==> Eval(a, s)
    ensures Eval(And([a, b]), s) <==> Eval(a, s) && Eval(b, s)
    ensures Eval(Or([a]), s) <==> Eval(a, s)
  {
    assert [a, b][0] == a && [a, b][1] == b;
    assert [a][0] == a;
  }

  /** Every constraint of the store holds of the secret. */
  predicate AllHold(store: seq<Constraint>, secret: Code) {
    forall i :: 0 <= i < |store| ==> Eval(store[i], secret)
  }

  /** TestedGame.impose: with a known secret, a constraint the secret does
      not satisfy is a failed assertion; otherwise (or with no secret at
      all) the constraint joins the store. */
  method CheckedImpose(store: seq<Constraint>, c: Constraint, secret: Option<Code>)
    returns (r: Result<seq<Constraint>>)
    ensures r.Success? <==> secret.None? || Eval(c, secret.value)
    ensures r.Success? ==> r.value == store + [c]
  {
    if secret.Some? {
      var ok := Evaluate(c, secret.value);
      if !ok {
        return Failure("constraint is false of the secret");
      }
    }
    return Success(store + [c]);
  }

  /** A store the secret satisfies stays satisfied by every checked
      imposition that succeeds. */
  lemma ImposeKeepsSecret(store: seq<Constraint>, c: Constraint, secret: Code)
    requires AllHold(store, secret)
    requires Eval(c, secret)
    ensures AllHold(store + [c], secret)
  {
    var s := store + [c];
    forall i | 0 <= i < |s| ensures Eval(s[i], secret) {
      if i < |store| {
        assert s[i] == store[i];
      }
    }
  }

  /** Stores of one and of two constraints. */
  lemma AllHoldSmall(a: Constraint, b: Constraint, secret: Code)
    ensures AllHold([a], secret) <==> Eval(a, secret)
    ensures AllHold([a, b], secret) <==> Eval(a, secret) && Eval(b, secret)
  {
    assert [a][0] == a;
    assert [a, b][0] == a && [a, b][1] == b;
  }

  /** A store split in two holds exactly when both parts hold. */
  lemma AllHoldConcat(a: seq<Constraint>, b: seq<Constraint>, secret: Code)
    ensures AllHold(a + b, secret) <==> AllHold(a, secret) && AllHold(b, secret)
  {
    var s := a + b;
    if AllHold(a, secret) && AllHold(b, secret) {
      forall i | 0 <= i < |s| ensures Eval(s[i], secret) {
        if i < |a| {
          assert s[i] == a[i];
        } else {
          assert s[i] == b[i - |a|];
        }
      }
    }
    if AllHold(s, secret) {
      forall i | 0 <= i < |a| ensures Eval(a[i], secret) {
        assert s[i] == a[i];
      }
      forall i | 0 <= i < |b| ensures Eval(b[i], secret) {
        assert s[i + |a|] == b[i];
      }
    }
  }
}
