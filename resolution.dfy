/** The meaning of `ParamResolver.value_of` as functions of the binding table
    and the input: the early exits of lines 91-109, and the substitution loop
    of lines 115-125 described by its fuel-indexed unfolding `Run`. */
module Resolution {
  import opened Wrappers
  import opened Symbolic
  import opened Tables

  /** What `value_of` returns. */
  datatype ParamVal =
    | AsIs(v: Value)               // returned without resolution
    | Real(x: real)                // `float(v)`
    | Complex(re: real, im: real)  // `complex(v)`
    | Symbolic(t: Term)            // a partially resolved expression

  /** The key the exact-match step settles on for symbol `s`: the Symbol key
      if present, then overwritten by the name key if that is present too. */
  function ExactKey(d: Table, s: string): (k: Option<Key>)
    ensures k.Some? ==> k.value in AsMap(d) && k.value.name == s
  {
    var m := AsMap(d);
    var bySymbol := if SymKey(s) in m then Some(SymKey(s)) else None;
    if NameKey(s) in m then Some(NameKey(s)) else bySymbol
  }

  /** The value bound to symbol `s` by exact match, if any. */
  function ExactMatch(d: Table, s: string): Option<Value>
  {
    match ExactKey(d, s)
    case None => None
    case Some(k) => Some(AsMap(d)[k])
  }

  /** What sympy makes of a bound value when substituting: numbers become
      constants, an alias string becomes the symbol it names, an expression is
      itself; any other object cannot be converted and is skipped. */
  function AsTerm(v: Value): Option<Term>
  {
    match v
    case Number(n) => Some(Const(n))
    case Alias(s) => Some(Sym(s))
    case Expr(t) => Some(t)
    case Other(_) => None
  }

  /** Item `e` gives `subs` a replacement for the symbol `n`: its key names
      `n` and its value converts to something other than that very symbol
      (sympy drops an item it cannot convert and one that changes nothing). */
  predicate Replaces(e: Entry, n: string)
  {
    e.0.name == n && AsTerm(e.1).Some? && AsTerm(e.1) != Some(Sym(n))
  }

  /** The replacement `subs` uses for `n`. The converted items go through
      `dict(...)` in table order, so the last item that replaces `n`
      wins, whether its key is the name or the Symbol. */
  function LastReplacement(d: Table, n: string): Option<Term>
  {
    if d == [] then None
    else if Replaces(d[|d| - 1], n) then AsTerm(d[|d| - 1].1)
    else LastReplacement(d[..|d| - 1], n)
  }

  function KeyNames(d: Table): seq<string>
  {
    seq(|d|, i requires 0 <= i < |d| => d[i].0.name)
  }

  /** The replacement steps for `names`, in that order, skipping a name that
      has no replacement. */
  function Replacements(d: Table, names: seq<string>): seq<(string, Term)>
  {
    if names == [] then []
    else
      match LastReplacement(d, names[0])
      case Some(t) => [(names[0], t)] + Replacements(d, names[1..])
      case None => Replacements(d, names[1..])
  }

  /** The steps `value.subs(self.param_dict)` performs, one after another:
      sympy orders the symbols of a dict argument by their sort key, which
      for symbols compares their names. */
  function SubstSeq(d: Table): seq<(string, Term)>
  {
    Replacements(d, SortNames(KeyNames(d)))
  }

  function Substitute(d: Table, t: Term): Term
  {
    SubstAll(t, SubstSeq(d))
  }

  /** Lines 123-125: complex if the imaginary part is non-zero, real otherwise. */
  function Classify(n: Num): ParamVal
  {
    if n.im != 0.0 then Complex(n.re, n.im) else Real(n.re)
  }

  /** The loop stops at `u` when substituting into `u` leaves no free symbol,
      or leaves free symbols and changes nothing. */
  predicate Settled(d: Table, u: Term)
  {
    var v := Substitute(d, u);
    Closed(v) || v == u
  }

  /** What the loop returns once it has stopped at `u`. */
  function Outcome(d: Table, u: Term): ParamVal
    requires Settled(d, u)
  {
    var v := Substitute(d, u);
    if Closed(v) then Classify(Eval(v)) else Symbolic(v)
  }

  /** The loop run from `t` for at most `fuel` further rounds; `None` if it
      has not stopped by then. */
  function Run(d: Table, t: Term, fuel: nat): Option<ParamVal>
    decreases fuel
  {
    if Settled(d, t) then Some(Outcome(d, t))
    else if fuel == 0 then None
    else Run(d, Substitute(d, t), fuel - 1)
  }

  /** The k-th term the loop visits, starting from `t`. */
  function Iterate(d: Table, t: Term, k: nat): Term
    decreases k
  {
    if k == 0 then t else Iterate(d, Substitute(d, t), k - 1)
  }

  /** The loop started at `t` stops. The source does not guarantee this. */
  ghost predicate LoopHalts(d: Table, t: Term)
  {
    exists n: nat :: Run(d, t, n).Some?
  }

  /** What the loop started at `t` returns, when it stops. */
  ghost function FixedPoint(d: Table, t: Term): ParamVal
    requires LoopHalts(d, t)
  {
    var n: nat :| Run(d, t, n).Some?;
    Run(d, t, n).value
  }

  /** How far lines 91-109 take an input: returned, or handed to the loop. */
  datatype Stage = Done(r: ParamVal) | Loop(t: Term)

  /** Lines 100-109 for a symbol named `s`. */
  function SymbolStage(d: Table, s: string): Stage
  {
    match ExactMatch(d, s)
    case Some(b) => if b.Number? || b.Other? then Done(AsIs(b)) else Loop(Sym(s))
    case None => Loop(Sym(s))
  }

  /** Lines 91-109 and 128: numbers are returned as they are, a string stands
      for the symbol of that name, a symbol may be answered by exact match,
      and an object that is not a sympy expression is returned unchanged. */
  function Prelude(d: Table, v: Value): Stage
  {
    match v
    case Number(_) => Done(AsIs(v))
    case Other(_) => Done(AsIs(v))
    case Alias(s) => SymbolStage(d, s)
    case Expr(t) => if t.Sym? then SymbolStage(d, t.name) else Loop(t)
  }

  /** `value_of(v)` returns at all. */
  ghost predicate Terminates(d: Table, v: Value)
  {
    Prelude(d, v).Loop? ==> LoopHalts(d, Prelude(d, v).t)
  }

  /** The value `value_of(v)` returns. */
  ghost function Resolve(d: Table, v: Value): ParamVal
    requires Terminates(d, v)
  {
    match Prelude(d, v)
    case Done(r) => r
    case Loop(t) => FixedPoint(d, t)
  }

  // ----- the exact-match step -----

  /** The name key wins over the Symbol key; either one alone is used. */
  lemma ExactMatchPriority(d: Table, s: string)
    ensures NameKey(s) in AsMap(d) ==> ExactMatch(d, s) == Some(AsMap(d)[NameKey(s)])
    ensures NameKey(s) !in AsMap(d) && SymKey(s) in AsMap(d) ==> ExactMatch(d, s) == Some(AsMap(d)[SymKey(s)])
    ensures NameKey(s) !in AsMap(d) && SymKey(s) !in AsMap(d) ==> ExactMatch(d, s) == None
  {
  }

  /** `LastReplacement` is the value of the last item that replaces `n`, and
      there is none exactly when no item does. */
  lemma {:induction false} LastReplacementIsLast(d: Table, n: string)
    ensures LastReplacement(d, n).None? <==> forall i :: 0 <= i < |d| ==> !Replaces(d[i], n)
    ensures LastReplacement(d, n).Some? ==>
              exists i :: 0 <= i < |d| && Replaces(d[i], n) && AsTerm(d[i].1) == LastReplacement(d, n) &&
                          forall j :: i < j < |d| ==> !Replaces(d[j], n)
    decreases |d|
  {
    if d != [] && !Replaces(d[|d| - 1], n) {
      var p := d[..|d| - 1];
      LastReplacementIsLast(p, n);
      assert forall i :: 0 <= i < |p| ==> p[i] == d[i];
    }
  }

  lemma {:induction false} ReplacementsAt(d: Table, names: seq<string>)
    ensures forall i :: 0 <= i < |Replacements(d, names)| ==>
              Replacements(d, names)[i].0 in names &&
              LastReplacement(d, Replacements(d, names)[i].0) == Some(Replacements(d, names)[i].1)
    ensures forall n :: n in names && LastReplacement(d, n).Some? ==>
              (n, LastReplacement(d, n).value) in Replacements(d, names)
    ensures StrictlySorted(names) ==>
              forall i, j :: 0 <= i < j < |Replacements(d, names)| ==>
                NameBelow(Replacements(d, names)[i].0, Replacements(d, names)[j].0)
    decreases |names|
  {
    if names != [] {
      ReplacementsAt(d, names[1..]);
      var rest := Replacements(d, names[1..]);
      if StrictlySorted(names) {
        assert StrictlySorted(names[1..]) by {
          forall i, j | 0 <= i < j < |names[1..]| ensures NameBelow(names[1..][i], names[1..][j]) {
            assert names[1..][i] == names[i + 1] && names[1..][j] == names[j + 1];
          }
        }
        forall i | 0 <= i < |rest| ensures NameBelow(names[0], rest[i].0) {
          var m :| 0 <= m < |names[1..]| && names[1..][m] == rest[i].0;
          assert names[m + 1] == rest[i].0;
        }
      }
      assert forall n :: n in names ==> n == names[0] || n in names[1..];
    }
  }

  /** The steps of one `subs` call: symbol `n` is replaced by `t` exactly when
      the last item replacing `n` gives `t`, and the symbols are visited in
      strictly increasing name order, so each at most once. */
  lemma SubstSeqAt(d: Table, n: string, t: Term)
    ensures (n, t) in SubstSeq(d) <==> LastReplacement(d, n) == Some(t)
    ensures n in StepNames(SubstSeq(d)) <==> LastReplacement(d, n).Some?
    ensures forall i, j :: 0 <= i < j < |SubstSeq(d)| ==> NameBelow(SubstSeq(d)[i].0, SubstSeq(d)[j].0)
  {
    var names := SortNames(KeyNames(d));
    SortNamesCorrect(KeyNames(d));
    ReplacementsAt(d, names);
    LastReplacementIsLast(d, n);
    if LastReplacement(d, n).Some? {
      var i :| 0 <= i < |d| && Replaces(d[i], n) && AsTerm(d[i].1) == LastReplacement(d, n);
      assert KeyNames(d)[i] == n;
      assert (n, LastReplacement(d, n).value) in SubstSeq(d);
    }
    if n in StepNames(SubstSeq(d)) {
      var i :| 0 <= i < |SubstSeq(d)| && SubstSeq(d)[i].0 == n;
      assert LastReplacement(d, n) == Some(SubstSeq(d)[i].1);
    }
  }

  // ----- the loop -----

  /** Once the loop has stopped within `n` rounds, more fuel changes nothing. */
  lemma {:induction false} RunMonotone(d: Table, t: Term, n: nat, m: nat)
    requires Run(d, t, n).Some? && n <= m
    ensures Run(d, t, m) == Run(d, t, n)
    decreases n
  {
    if !Settled(d, t) {
      RunMonotone(d, Substitute(d, t), n - 1, m - 1);
    }
  }

  /** The loop's result does not depend on the fuel used to observe it. */
  lemma FixedPointRun(d: Table, t: Term, n: nat)
    requires Run(d, t, n).Some?
    ensures LoopHalts(d, t) && FixedPoint(d, t) == Run(d, t, n).value
  {
    var n': nat :| Run(d, t, n').Some? && FixedPoint(d, t) == Run(d, t, n').value;
    if n <= n' {
      RunMonotone(d, t, n, n');
    } else {
      RunMonotone(d, t, n', n);
    }
  }

  lemma {:induction false} RunIterate(d: Table, t: Term, n: nat) returns (k: nat)
    requires Run(d, t, n).Some?
    ensures k <= n && Settled(d, Iterate(d, t, k))
    ensures forall j :: 0 <= j < k ==> !Settled(d, Iterate(d, t, j))
    ensures Run(d, t, n).value == Outcome(d, Iterate(d, t, k))
    decreases n
  {
    if Settled(d, t) {
      k := 0;
    } else {
      var t' := Substitute(d, t);
      var k' := RunIterate(d, t', n - 1);
      k := k' + 1;
      forall j | 0 <= j < k ensures !Settled(d, Iterate(d, t, j)) {
        if j > 0 {
          assert Iterate(d, t, j) == Iterate(d, t', j - 1);
        }
      }
    }
  }

  /** Reference description of the loop: it returns the outcome at the first
      term of the iteration `t, subs(t), subs(subs(t)), ...` at which it stops. */
  lemma FixedPointIsFirstStop(d: Table, t: Term) returns (k: nat)
    requires LoopHalts(d, t)
    ensures Settled(d, Iterate(d, t, k))
    ensures forall j :: 0 <= j < k ==> !Settled(d, Iterate(d, t, j))
    ensures FixedPoint(d, t) == Outcome(d, Iterate(d, t, k))
  {
    var n: nat :| Run(d, t, n).Some?;
    FixedPointRun(d, t, n);
    k := RunIterate(d, t, n);
  }

  /** Lines 117-121: while substitution makes progress without closing the
      term, the loop carries on from the substituted term. */
  lemma ProgressStep(d: Table, t: Term)
    requires !Settled(d, t)
    ensures LoopHalts(d, t) <==> LoopHalts(d, Substitute(d, t))
    ensures LoopHalts(d, t) ==> FixedPoint(d, t) == FixedPoint(d, Substitute(d, t))
  {
    var t' := Substitute(d, t);
    if LoopHalts(d, t) {
      var n: nat :| Run(d, t, n).Some?;
      FixedPointRun(d, t, n);
      FixedPointRun(d, t', n - 1);
    }
    if LoopHalts(d, t') {
      var n: nat :| Run(d, t', n).Some?;
      assert Run(d, t, n + 1) == Run(d, t', n);
      FixedPointRun(d, t, n + 1);
    }
  }

  /** Line 122: no progress while free symbols remain returns the term as it is. */
  lemma NoProgress(d: Table, t: Term)
    requires Substitute(d, t) == t && !Closed(t)
    ensures LoopHalts(d, t) && FixedPoint(d, t) == Symbolic(t)
  {
    FixedPointRun(d, t, 0);
  }

  /** Lines 123-125: a substitution that leaves no free symbol is evaluated
      and classified as complex or real. */
  lemma ClosedResult(d: Table, t: Term)
    requires Closed(Substitute(d, t))
    ensures LoopHalts(d, t)
    ensures FixedPoint(d, t) == Classify(Eval(Substitute(d, t)))
    ensures FixedPoint(d, t).Complex? <==> Eval(Substitute(d, t)).im != 0.0
  {
    FixedPointRun(d, t, 0);
  }

  /** A partial result is a genuine fixed point of substitution that still
      has free symbols; a complex result has a non-zero imaginary part. */
  lemma FixedPointShape(d: Table, t: Term)
    requires LoopHalts(d, t)
    ensures FixedPoint(d, t).Symbolic? ==>
              Substitute(d, FixedPoint(d, t).t) == FixedPoint(d, t).t && !Closed(FixedPoint(d, t).t)
    ensures FixedPoint(d, t).Complex? ==> FixedPoint(d, t).im != 0.0
    ensures !FixedPoint(d, t).AsIs?
  {
    var k := FixedPointIsFirstStop(d, t);
  }

  // ----- termination under acyclic bindings -----

  /** Bindings are acyclic under `rank` when every symbol in a replacement
      ranks strictly below the symbol it replaces. */
  ghost predicate Acyclic(d: Table, rank: string -> nat)
  {
    forall i, s :: 0 <= i < |d| && Replaces(d[i], d[i].0.name) && s in FreeSymbols(AsTerm(d[i].1).value) ==>
      rank(s) < rank(d[i].0.name)
  }

  ghost predicate StepsAcyclic(steps: seq<(string, Term)>, rank: string -> nat)
  {
    forall i, s :: 0 <= i < |steps| && s in FreeSymbols(steps[i].1) ==> rank(s) < rank(steps[i].0)
  }

  lemma AcyclicSteps(d: Table, rank: string -> nat)
    requires Acyclic(d, rank)
    ensures StepsAcyclic(SubstSeq(d), rank)
  {
    var steps := SubstSeq(d);
    forall i, s | 0 <= i < |steps| && s in FreeSymbols(steps[i].1) ensures rank(s) < rank(steps[i].0) {
      var n := steps[i].0;
      SubstSeqAt(d, n, steps[i].1);
      LastReplacementIsLast(d, n);
      var m :| 0 <= m < |d| && Replaces(d[m], n) && AsTerm(d[m].1) == LastReplacement(d, n);
    }
  }

  /** Part way through a pass, after steps `..j`: every bound symbol left
      ranks below `k`, or ranks at most `k` and still has a step to come. */
  ghost predicate PassRanked(steps: seq<(string, Term)>, rank: string -> nat, u: Term, j: nat, k: nat)
    requires j <= |steps|
  {
    forall s :: s in FreeSymbols(u) && s in StepNames(steps) ==>
      rank(s) < k || (rank(s) <= k && s in StepNames(steps[j..]))
  }

  lemma {:induction false} PassLowersRank(steps: seq<(string, Term)>, rank: string -> nat, u: Term, j: nat, k: nat)
    requires j <= |steps| && StepsAcyclic(steps, rank) && PassRanked(steps, rank, u, j, k)
    ensures forall s :: s in FreeSymbols(SubstAll(u, steps[j..])) && s in StepNames(steps) ==> rank(s) < k
    decreases |steps| - j
  {
    if j == |steps| {
      assert steps[j..] == [];
    } else {
      var b, img := steps[j].0, steps[j].1;
      var u' := Subst1(u, b, img);
      assert steps[j..][0] == steps[j] && steps[j..][1..] == steps[j + 1..];
      assert b in StepNames(steps);
      forall s | s in FreeSymbols(u') && s in StepNames(steps)
        ensures rank(s) < k || (rank(s) <= k && s in StepNames(steps[j + 1..]))
      {
        Subst1FreeSymbols(u, b, img, s);
        if s in FreeSymbols(u) && s != b && !(rank(s) < k) {
          var i :| 0 <= i < |steps[j..]| && steps[j..][i].0 == s;
          assert steps[j + 1..][i - 1].0 == s;
        }
      }
      PassLowersRank(steps, rank, u', j + 1, k);
    }
  }

  ghost predicate RankedBelow(d: Table, rank: string -> nat, u: Term, k: nat)
  {
    forall s :: s in FreeSymbols(u) && s in StepNames(SubstSeq(d)) ==> rank(s) < k
  }

  /** One pass of `subs` lowers the highest rank of a bound symbol left. */
  lemma RankedStep(d: Table, rank: string -> nat, u: Term, k: nat)
    requires Acyclic(d, rank) && RankedBelow(d, rank, u, k + 1)
    ensures RankedBelow(d, rank, Substitute(d, u), k)
  {
    var steps := SubstSeq(d);
    AcyclicSteps(d, rank);
    assert steps[0..] == steps;
    PassLowersRank(steps, rank, u, 0, k);
  }

  lemma {:induction false} RankedHalts(d: Table, rank: string -> nat, u: Term, k: nat)
    requires Acyclic(d, rank) && RankedBelow(d, rank, u, k)
    ensures Run(d, u, k).Some?
    decreases k
  {
    if k == 0 {
      SubstAllIdle(u, SubstSeq(d));
    } else if !Settled(d, u) {
      RankedStep(d, rank, u, k - 1);
      RankedHalts(d, rank, Substitute(d, u), k - 1);
    }
  }

  lemma {:induction false} RankBound(names: set<string>, rank: string -> nat) returns (k: nat)
    ensures forall s :: s in names ==> rank(s) < k
    decreases names
  {
    if names == {} {
      k := 0;
    } else {
      var x :| x in names;
      var k' := RankBound(names - {x}, rank);
      k := if rank(x) + 1 > k' then rank(x) + 1 else k';
    }
  }

  /** With acyclic bindings the loop always stops, so `value_of` returns. */
  lemma AcyclicTerminates(d: Table, rank: string -> nat, v: Value)
    requires Acyclic(d, rank)
    ensures Terminates(d, v)
  {
    if Prelude(d, v).Loop? {
      var t := Prelude(d, v).t;
      var k := RankBound(FreeSymbols(t), rank);
      RankedHalts(d, rank, t, k);
    }
  }

  // ----- value_of, case by case -----

  /** Lines 91-93: a number comes back unchanged. */
  lemma NumberPassesThrough(d: Table, n: Num)
    ensures Terminates(d, Number(n)) && Resolve(d, Number(n)) == AsIs(Number(n))
  {
  }

  /** Lines 95-97: a string is resolved exactly as the symbol of that name. */
  lemma StringIsSymbol(d: Table, s: string)
    ensures Terminates(d, Alias(s)) <==> Terminates(d, Expr(Sym(s)))
    ensures Terminates(d, Alias(s)) ==> Resolve(d, Alias(s)) == Resolve(d, Expr(Sym(s)))
  {
  }

  /** Lines 106-109: a symbol bound to a number or a non-sympy object yields
      exactly that value, with no substitution. */
  lemma BoundValueShortcut(d: Table, s: string)
    requires ExactMatch(d, s).Some?
    requires ExactMatch(d, s).value.Number? || ExactMatch(d, s).value.Other?
    ensures Terminates(d, Expr(Sym(s)))
    ensures Resolve(d, Expr(Sym(s))) == AsIs(ExactMatch(d, s).value)
  {
  }

  /** Lines 115-122 and 128: a symbol with no binding comes back unchanged. */
  lemma UnboundSymbol(d: Table, s: string)
    requires ExactMatch(d, s).None?
    ensures Terminates(d, Expr(Sym(s))) && Resolve(d, Expr(Sym(s))) == Symbolic(Sym(s))
  {
    forall i | 0 <= i < |d| ensures !Replaces(d[i], s) {
      AsMapKeys(d, d[i].0);
      assert d[i].0 == NameKey(s) || d[i].0 == SymKey(s) || d[i].0.name != s;
    }
    LastReplacementIsLast(d, s);
    SubstSeqAt(d, s, Sym(s));
    SubstAllIdle(Sym(s), SubstSeq(d));
    NoProgress(d, Sym(s));
  }

  /** Lines 115-125: a symbol bound to an alias or an expression, or a compound
      expression, is resolved by the substitution loop. */
  lemma SymbolicBindingLoops(d: Table, v: Value)
    requires v.Alias? || v.Expr?
    requires !(v.Alias? || v.t.Sym?) ||
             var s := if v.Alias? then v.name else v.t.name;
             ExactMatch(d, s).None? || ExactMatch(d, s).value.Alias? || ExactMatch(d, s).value.Expr?
    ensures Prelude(d, v) == Loop(if v.Alias? then Sym(v.name) else v.t)
  {
  }

  /** Resolution never fails: every terminating result is the input itself,
      the exactly matched value, a real or complex number, or an expression
      that substitution no longer changes. */
  lemma ResolveShape(d: Table, v: Value)
    requires Terminates(d, v)
    ensures Resolve(d, v).AsIs? ==>
              Resolve(d, v).v == v ||
              exists s :: ExactMatch(d, s) == Some(Resolve(d, v).v)
    ensures Resolve(d, v).Symbolic? ==>
              Substitute(d, Resolve(d, v).t) == Resolve(d, v).t && !Closed(Resolve(d, v).t)
    ensures Resolve(d, v).Complex? ==> Resolve(d, v).im != 0.0
  {
    if Prelude(d, v).Loop? {
      FixedPointShape(d, Prelude(d, v).t);
    } else if v.Alias? {
      assert ExactMatch(d, v.name) == Some(Resolve(d, v).v);
    } else if v.Expr? {
      assert ExactMatch(d, v.t.name) == Some(Resolve(d, v).v);
    }
  }

  /** An empty table resolves every symbol, and every expression with free
      symbols, to itself. */
  lemma EmptyTableResolvesToItself(t: Term)
    requires !Closed(t)
    ensures Terminates([], Expr(t)) && Resolve([], Expr(t)) == Symbolic(t)
  {
    assert SubstSeq([]) == [];
    NoProgress([], t);
  }
}
