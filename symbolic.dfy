/** A minimal stand-in for the sympy expressions the resolver consumes:
    exact complex constants, named symbols and two binary operators,
    with substitution steps applied in order, free symbols, evaluation of
    closed terms, and the name order in which `subs` visits symbols. */
module Symbolic {

  /** An exact complex number; a real number has `im == 0.0`. */
  datatype Num = Num(re: real, im: real)

  datatype Term =
    | Const(n: Num)
    | Sym(name: string)
    | Add(left: Term, right: Term)
    | Mul(left: Term, right: Term)

  /** The symbols occurring in a term (sympy's `free_symbols`). */
  function FreeSymbols(t: Term): set<string>
  {
    match t
    case Const(_) => {}
    case Sym(s) => {s}
    case Add(l, r) => FreeSymbols(l) + FreeSymbols(r)
    case Mul(l, r) => FreeSymbols(l) + FreeSymbols(r)
  }

  predicate Closed(t: Term)
  {
    FreeSymbols(t) == {}
  }

  /** One `_subs(old, new)` step: replaces every occurrence of the symbol
      `b` by `img`. */
  function Subst1(t: Term, b: string, img: Term): Term
  {
    match t
    case Const(_) => t
    case Sym(s) => if s == b then img else t
    case Add(l, r) => Add(Subst1(l, b, img), Subst1(r, b, img))
    case Mul(l, r) => Mul(Subst1(l, b, img), Subst1(r, b, img))
  }

  /** Applies the replacement steps one after another, in order, as
      `subs` does when it is not asked to substitute simultaneously. */
  function SubstAll(t: Term, steps: seq<(string, Term)>): Term
    decreases |steps|
  {
    if steps == [] then t else SubstAll(Subst1(t, steps[0].0, steps[0].1), steps[1..])
  }

  function StepNames(steps: seq<(string, Term)>): set<string>
  {
    set i | 0 <= i < |steps| :: steps[i].0
  }

  /** Complex arithmetic on a closed term. */
  function Eval(t: Term): Num
    requires Closed(t)
  {
    match t
    case Const(n) => n
    case Sym(_) => assert false; Num(0.0, 0.0)
    case Add(l, r) =>
      var a, b := Eval(l), Eval(r);
      Num(a.re + b.re, a.im + b.im)
    case Mul(l, r) =>
      var a, b := Eval(l), Eval(r);
      Num(a.re * b.re - a.im * b.im, a.re * b.im + a.im * b.re)
  }

  function Size(t: Term): nat
  {
    match t
    case Const(_) => 1
    case Sym(_) => 1
    case Add(l, r) => 1 + Size(l) + Size(r)
    case Mul(l, r) => 1 + Size(l) + Size(r)
  }

  /** After one step, a free symbol is a free symbol of the original other
      than `b`, or, when `b` occurred, a free symbol of its replacement; and
      conversely. */
  lemma {:induction false} Subst1FreeSymbols(t: Term, b: string, img: Term, s: string)
    ensures s in FreeSymbols(Subst1(t, b, img)) <==>
              (s in FreeSymbols(t) && s != b) || (b in FreeSymbols(t) && s in FreeSymbols(img))
  {
    match t
    case Const(_) =>
    case Sym(x) =>
    case Add(l, r) =>
      Subst1FreeSymbols(l, b, img, s);
      Subst1FreeSymbols(r, b, img, s);
    case Mul(l, r) =>
      Subst1FreeSymbols(l, b, img, s);
      Subst1FreeSymbols(r, b, img, s);
  }

  /** A step for a symbol that does not occur changes nothing. */
  lemma {:induction false} Subst1Idle(t: Term, b: string, img: Term)
    requires b !in FreeSymbols(t)
    ensures Subst1(t, b, img) == t
  {
    match t
    case Const(_) =>
    case Sym(x) =>
    case Add(l, r) =>
      Subst1Idle(l, b, img);
      Subst1Idle(r, b, img);
    case Mul(l, r) =>
      Subst1Idle(l, b, img);
      Subst1Idle(r, b, img);
  }

  /** A pass changes nothing when none of the term's symbols has a step. */
  lemma {:induction false} SubstAllIdle(t: Term, steps: seq<(string, Term)>)
    requires forall s :: s in FreeSymbols(t) ==> s !in StepNames(steps)
    ensures SubstAll(t, steps) == t
    decreases |steps|
  {
    if steps != [] {
      assert steps[0].0 in StepNames(steps);
      Subst1Idle(t, steps[0].0, steps[0].1);
      SubstAllIdle(t, steps[1..]);
    }
  }

  /** After a pass, a free symbol is either a free symbol of the original
      that no step replaces, or a free symbol of some step's replacement. */
  lemma {:induction false} SubstAllFreeSymbols(t: Term, steps: seq<(string, Term)>, s: string)
    requires s in FreeSymbols(SubstAll(t, steps))
    ensures (s in FreeSymbols(t) && s !in StepNames(steps)) ||
            exists i :: 0 <= i < |steps| && s in FreeSymbols(steps[i].1)
    decreases |steps|
  {
    if steps != [] {
      var u := Subst1(t, steps[0].0, steps[0].1);
      SubstAllFreeSymbols(u, steps[1..], s);
      Subst1FreeSymbols(t, steps[0].0, steps[0].1, s);
      if exists i :: 0 <= i < |steps[1..]| && s in FreeSymbols(steps[1..][i].1) {
        var i :| 0 <= i < |steps[1..]| && s in FreeSymbols(steps[1..][i].1);
        assert steps[i + 1] == steps[1..][i];
      }
    }
  }

  // ----- the order in which `subs` visits symbols -----

  /** Sympy's sort key for symbols compares their names: code point by code
      point, a proper prefix first. */
  predicate NameBelow(a: string, b: string)
  {
    if a == [] then b != []
    else if b == [] then false
    else if a[0] != b[0] then a[0] < b[0]
    else NameBelow(a[1..], b[1..])
  }

  predicate StrictlySorted(ns: seq<string>)
  {
    forall i, j :: 0 <= i < j < |ns| ==> NameBelow(ns[i], ns[j])
  }

  function InsertName(x: string, ns: seq<string>): seq<string>
  {
    if ns == [] then [x]
    else if x == ns[0] then ns
    else if NameBelow(x, ns[0]) then [x] + ns
    else [ns[0]] + InsertName(x, ns[1..])
  }

  /** The distinct names of `ns` in increasing order. */
  function SortNames(ns: seq<string>): seq<string>
  {
    if ns == [] then [] else InsertName(ns[0], SortNames(ns[1..]))
  }

  lemma {:induction false} NameBelowIrreflexive(a: string)
    ensures !NameBelow(a, a)
    decreases |a|
  {
    if a != [] {
      NameBelowIrreflexive(a[1..]);
    }
  }

  lemma {:induction false} NameBelowTotal(a: string, b: string)
    requires a != b
    ensures NameBelow(a, b) || NameBelow(b, a)
    decreases |a|
  {
    if a != [] && b != [] && a[0] == b[0] {
      assert a == [a[0]] + a[1..] && b == [b[0]] + b[1..];
      NameBelowTotal(a[1..], b[1..]);
    }
  }

  lemma {:induction false} NameBelowTransitive(a: string, b: string, c: string)
    requires NameBelow(a, b) && NameBelow(b, c)
    ensures NameBelow(a, c)
    decreases |a|
  {
    if a != [] && a[0] == b[0] && b[0] == c[0] {
      NameBelowTransitive(a[1..], b[1..], c[1..]);
    }
  }

  lemma {:induction false} InsertNameCorrect(x: string, ns: seq<string>)
    requires StrictlySorted(ns)
    ensures StrictlySorted(InsertName(x, ns))
    ensures forall y :: y in InsertName(x, ns) <==> y == x || y in ns
    decreases |ns|
  {
    if ns == [] {
    } else if x == ns[0] {
    } else if NameBelow(x, ns[0]) {
      forall j | 0 < j < |ns| ensures NameBelow(x, ns[j]) {
        NameBelowTransitive(x, ns[0], ns[j]);
      }
    } else {
      NameBelowTotal(x, ns[0]);
      var tail := InsertName(x, ns[1..]);
      InsertNameCorrect(x, ns[1..]);
      assert InsertName(x, ns) == [ns[0]] + tail;
      forall j | 0 <= j < |tail| ensures NameBelow(ns[0], tail[j]) {
        assert tail[j] in tail;
      }
    }
  }

  /** Sorting keeps exactly the names it is given, each once, in increasing
      order. */
  lemma {:induction false} SortNamesCorrect(ns: seq<string>)
    ensures StrictlySorted(SortNames(ns))
    ensures forall y :: y in SortNames(ns) <==> y in ns
    ensures forall i, j :: 0 <= i < j < |SortNames(ns)| ==> SortNames(ns)[i] != SortNames(ns)[j]
    decreases |ns|
  {
    if ns != [] {
      SortNamesCorrect(ns[1..]);
      InsertNameCorrect(ns[0], SortNames(ns[1..]));
      assert ns == [ns[0]] + ns[1..];
    }
    forall i, j | 0 <= i < j < |SortNames(ns)| ensures SortNames(ns)[i] != SortNames(ns)[j] {
      NameBelowIrreflexive(SortNames(ns)[i]);
    }
  }
}
