/** Concrete binding tables showing each branch of `value_of`. */
module Scenarios {
  import opened Wrappers
  import opened Symbolic
  import opened Tables
  import opened Resolution

  const X: string := "x"
  const Y: string := "y"

  function Int(k: int): Num
  {
    Num(k as real, 0.0)
  }

  /** The name orders the scenarios below rely on. */
  lemma SortedXY()
    ensures SortNames([X]) == [X] && SortNames([X, X]) == [X]
    ensures SortNames([X, Y]) == [X, Y] && SortNames([Y, X]) == [X, Y]
  {
    assert [X, Y][1..] == [Y] && [Y, X][1..] == [X] && [X, X][1..] == [X];
    assert [X][1..] == [] && [Y][1..] == [];
    assert NameBelow(X, Y) && !NameBelow(Y, X);
  }

  lemma OneStep(t: Term, b: string, img: Term)
    ensures SubstAll(t, [(b, img)]) == Subst1(t, b, img)
  {
    assert [(b, img)][1..] == [];
  }

  /** `{"x": 2}` resolves both `"x"` and `Symbol("x")` to 2. */
  lemma StringAndSymbolAgree()
    ensures Terminates([(NameKey(X), Number(Int(2)))], Alias(X))
    ensures Resolve([(NameKey(X), Number(Int(2)))], Alias(X)) == AsIs(Number(Int(2)))
    ensures Resolve([(NameKey(X), Number(Int(2)))], Expr(Sym(X))) == AsIs(Number(Int(2)))
  {
    var d := [(NameKey(X), Number(Int(2)))];
    assert d[0].0 in AsMap(d);
  }

  /** With both `Symbol("x")` and `"x"` bound, the string key is used. */
  lemma NameKeyWins()
    ensures Terminates([(SymKey(X), Number(Int(1))), (NameKey(X), Number(Int(2)))], Expr(Sym(X)))
    ensures Resolve([(SymKey(X), Number(Int(1))), (NameKey(X), Number(Int(2)))], Expr(Sym(X)))
            == AsIs(Number(Int(2)))
  {
    var d := [(SymKey(X), Number(Int(1))), (NameKey(X), Number(Int(2)))];
    assert d[1..] == [d[1]] && d[1..][1..] == [];
    assert AsMap(d[1..]) == map[NameKey(X) := Number(Int(2))];
    assert AsMap(d) == map[SymKey(X) := Number(Int(1)), NameKey(X) := Number(Int(2))];
  }

  /** `{"x": "y", "y": 3}` resolves `x` to the real 3 in a single `subs`
      call: `x` becomes `y`, which the later step for `y` turns into 3. */
  lemma ChainIsFollowed()
    ensures Terminates([(NameKey(X), Alias(Y)), (NameKey(Y), Number(Int(3)))], Alias(X))
    ensures Resolve([(NameKey(X), Alias(Y)), (NameKey(Y), Number(Int(3)))], Alias(X)) == Real(3.0)
  {
    var d := [(NameKey(X), Alias(Y)), (NameKey(Y), Number(Int(3)))];
    assert d[1..] == [d[1]] && d[1..][1..] == [];
    assert AsMap(d[1..]) == map[NameKey(Y) := Number(Int(3))];
    assert AsMap(d) == map[NameKey(X) := Alias(Y), NameKey(Y) := Number(Int(3))];
    assert KeyNames(d) == [X, Y];
    SortedXY();
    assert SortNames(KeyNames(d)) == [X, Y];
    assert [X, Y][1..] == [Y] && [Y][1..] == [];
    assert d[..1] == [d[0]];
    assert LastReplacement(d, X) == Some(Sym(Y));
    assert LastReplacement(d, Y) == Some(Const(Int(3)));
    var steps := [(X, Sym(Y)), (Y, Const(Int(3)))];
    assert Replacements(d, []) == [];
    assert Replacements(d, [Y]) == steps[1..];
    assert SubstSeq(d) == steps;
    assert steps[1..] == [(Y, Const(Int(3)))] && steps[1..][1..] == [];
    assert SubstAll(Sym(Y), steps[1..]) == Const(Int(3));
    assert Substitute(d, Sym(X)) == Const(Int(3));
    ClosedResult(d, Sym(X));
  }

  /** `{"y": "x", "x": 3}` resolves `y` to 3 in two rounds: the step for `x`
      comes before the one for `y`, so the first call only reaches `x`. */
  lemma ChainAgainstOrder()
    ensures Terminates([(NameKey(Y), Alias(X)), (NameKey(X), Number(Int(3)))], Alias(Y))
    ensures Resolve([(NameKey(Y), Alias(X)), (NameKey(X), Number(Int(3)))], Alias(Y)) == Real(3.0)
  {
    var d := [(NameKey(Y), Alias(X)), (NameKey(X), Number(Int(3)))];
    assert d[1..] == [d[1]] && d[1..][1..] == [];
    assert AsMap(d[1..]) == map[NameKey(X) := Number(Int(3))];
    assert AsMap(d) == map[NameKey(Y) := Alias(X), NameKey(X) := Number(Int(3))];
    assert KeyNames(d) == [Y, X];
    SortedXY();
    assert [X, Y][1..] == [Y] && [Y][1..] == [];
    assert d[..1] == [d[0]];
    assert SortNames(KeyNames(d)) == [X, Y];
    assert LastReplacement(d, X) == Some(Const(Int(3)));
    assert LastReplacement(d, Y) == Some(Sym(X));
    var steps := [(X, Const(Int(3))), (Y, Sym(X))];
    assert Replacements(d, []) == [];
    assert Replacements(d, [Y]) == steps[1..];
    assert SubstSeq(d) == steps;
    assert steps[1..] == [(Y, Sym(X))] && steps[1..][1..] == [];
    assert SubstAll(Sym(Y), steps[1..]) == Sym(X);
    assert SubstAll(Const(Int(3)), steps[1..]) == Const(Int(3));
    assert Substitute(d, Sym(Y)) == Sym(X);
    assert Substitute(d, Sym(X)) == Const(Int(3));
    assert Run(d, Sym(Y), 1) == Some(Real(3.0));
    FixedPointRun(d, Sym(Y), 1);
  }

  /** `{"x": "y", "y": "x"}`: one call turns `x` into `y` and back into `x`,
      so there is no progress and `x` comes back unresolved. */
  lemma SwapStops()
    ensures Terminates([(NameKey(X), Alias(Y)), (NameKey(Y), Alias(X))], Alias(X))
    ensures Resolve([(NameKey(X), Alias(Y)), (NameKey(Y), Alias(X))], Alias(X)) == Symbolic(Sym(X))
  {
    var d := [(NameKey(X), Alias(Y)), (NameKey(Y), Alias(X))];
    assert d[1..] == [d[1]] && d[1..][1..] == [];
    assert AsMap(d[1..]) == map[NameKey(Y) := Alias(X)];
    assert AsMap(d) == map[NameKey(X) := Alias(Y), NameKey(Y) := Alias(X)];
    assert KeyNames(d) == [X, Y];
    SortedXY();
    assert [X, Y][1..] == [Y] && [Y][1..] == [];
    assert d[..1] == [d[0]];
    assert SortNames(KeyNames(d)) == [X, Y];
    assert LastReplacement(d, X) == Some(Sym(Y));
    assert LastReplacement(d, Y) == Some(Sym(X));
    var steps := [(X, Sym(Y)), (Y, Sym(X))];
    assert Replacements(d, []) == [];
    assert Replacements(d, [Y]) == steps[1..];
    assert SubstSeq(d) == steps;
    assert steps[1..] == [(Y, Sym(X))] && steps[1..][1..] == [];
    assert SubstAll(Sym(Y), steps[1..]) == Sym(X);
    assert Substitute(d, Sym(X)) == Sym(X);
    NoProgress(d, Sym(X));
  }

  /** `{"x": "y", Symbol("x"): 5}`: the exact match picks the string key and
      its alias, but `subs` uses the later item, so `x` resolves to 5. */
  lemma LaterItemWinsInSubs()
    ensures Terminates([(NameKey(X), Alias(Y)), (SymKey(X), Number(Int(5)))], Alias(X))
    ensures Resolve([(NameKey(X), Alias(Y)), (SymKey(X), Number(Int(5)))], Alias(X)) == Real(5.0)
  {
    var d := [(NameKey(X), Alias(Y)), (SymKey(X), Number(Int(5)))];
    assert d[1..] == [d[1]] && d[1..][1..] == [];
    assert AsMap(d[1..]) == map[SymKey(X) := Number(Int(5))];
    assert AsMap(d) == map[NameKey(X) := Alias(Y), SymKey(X) := Number(Int(5))];
    assert Prelude(d, Alias(X)) == Loop(Sym(X));
    assert KeyNames(d) == [X, X];
    SortedXY();
    assert [X][1..] == [];
    assert SortNames(KeyNames(d)) == [X];
    assert LastReplacement(d, X) == Some(Const(Int(5)));
    assert Replacements(d, []) == [];
    assert SubstSeq(d) == [(X, Const(Int(5)))];
    OneStep(Sym(X), X, Const(Int(5)));
    assert Substitute(d, Sym(X)) == Const(Int(5));
    ClosedResult(d, Sym(X));
  }

  /** `{x: x}`: the item changes nothing, so `subs` drops it and `x` comes
      back unresolved. */
  lemma SelfBindingStops()
    ensures Terminates([(SymKey(X), Expr(Sym(X)))], Alias(X))
    ensures Resolve([(SymKey(X), Expr(Sym(X)))], Alias(X)) == Symbolic(Sym(X))
  {
    var d := [(SymKey(X), Expr(Sym(X)))];
    assert AsMap(d) == map[SymKey(X) := Expr(Sym(X))];
    assert KeyNames(d) == [X];
    SortedXY();
    assert [X][1..] == [];
    assert SortNames(KeyNames(d)) == [X];
    assert LastReplacement(d, X) == None;
    assert Replacements(d, []) == [];
    assert SubstSeq(d) == [];
    NoProgress(d, Sym(X));
  }

  /** `{x: i * 2}`: `x + 1` resolves to the complex number 1 + 2i. */
  lemma ComplexResult()
    ensures Terminates([(NameKey(X), Expr(Mul(Const(Num(0.0, 1.0)), Const(Int(2)))))], Expr(Add(Sym(X), Const(Int(1)))))
    ensures Resolve([(NameKey(X), Expr(Mul(Const(Num(0.0, 1.0)), Const(Int(2)))))], Expr(Add(Sym(X), Const(Int(1)))))
            == Complex(1.0, 2.0)
  {
    var d := [(NameKey(X), Expr(Mul(Const(Num(0.0, 1.0)), Const(Int(2)))))];
    assert KeyNames(d) == [X];
    SortedXY();
    assert [X][1..] == [];
    assert LastReplacement(d, X) == Some(Mul(Const(Num(0.0, 1.0)), Const(Int(2))));
    assert SortNames(KeyNames(d)) == [X];
    assert Replacements(d, []) == [];
    assert SubstSeq(d) == [(X, Mul(Const(Num(0.0, 1.0)), Const(Int(2))))];
    OneStep(Add(Sym(X), Const(Int(1))), X, Mul(Const(Num(0.0, 1.0)), Const(Int(2))));
    assert Substitute(d, Add(Sym(X), Const(Int(1)))) == Add(Mul(Const(Num(0.0, 1.0)), Const(Int(2))), Const(Int(1)));
    ClosedResult(d, Add(Sym(X), Const(Int(1))));
  }

  // `{x: x + 1}` keeps making progress: the loop of `value_of` never stops.

  function Incr(): Term
  {
    Add(Sym(X), Const(Int(1)))
  }

  lemma {:induction false} IncrGrows(u: Term)
    requires FreeSymbols(u) == {X}
    ensures FreeSymbols(Subst1(u, X, Incr())) == {X}
    ensures Size(Subst1(u, X, Incr())) > Size(u)
  {
    match u
    case Const(_) =>
    case Sym(_) =>
    case Add(l, r) =>
      if X in FreeSymbols(l) { IncrGrows(l); } else { Subst1Idle(l, X, Incr()); }
      if X in FreeSymbols(r) { IncrGrows(r); } else { Subst1Idle(r, X, Incr()); }
    case Mul(l, r) =>
      if X in FreeSymbols(l) { IncrGrows(l); } else { Subst1Idle(l, X, Incr()); }
      if X in FreeSymbols(r) { IncrGrows(r); } else { Subst1Idle(r, X, Incr()); }
  }

  lemma {:induction false} IncrNeverStops(u: Term, n: nat)
    requires FreeSymbols(u) == {X}
    ensures Run([(SymKey(X), Expr(Incr()))], u, n).None?
    decreases n
  {
    var d := [(SymKey(X), Expr(Incr()))];
    assert KeyNames(d) == [X];
    SortedXY();
    assert [X][1..] == [];
    assert LastReplacement(d, X) == Some(Incr());
    assert SortNames(KeyNames(d)) == [X];
    assert Replacements(d, []) == [];
    assert SubstSeq(d) == [(X, Incr())];
    OneStep(u, X, Incr());
    assert Substitute(d, u) == Subst1(u, X, Incr());
    IncrGrows(u);
    if n > 0 {
      IncrNeverStops(Subst1(u, X, Incr()), n - 1);
    }
  }

  /** Hence `value_of("x")` under `{x: x + 1}` does not return: the hypothesis
      `Terminates` of `ValueOf` is not always met. */
  lemma SelfIncrementDiverges()
    ensures !Terminates([(SymKey(X), Expr(Incr()))], Alias(X))
  {
    var d := [(SymKey(X), Expr(Incr()))];
    assert AsMap(d) == map[SymKey(X) := Expr(Incr())];
    assert Prelude(d, Alias(X)) == Loop(Sym(X));
    forall n: nat ensures Run(d, Sym(X), n).None? {
      IncrNeverStops(Sym(X), n);
    }
  }
}
