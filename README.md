# ParamResolver — a Dafny model of Cirq's parameter resolver

This project models `cirq.ParamResolver`, the object that turns parameters into
values using a binding table (`param_dict`). Parameters can be numbers, names,
sympy symbols or sympy formulas. The model covers:

- resolving one value (`value_of` / `__getitem__`): numbers pass through; a name
  stands for the symbol of that name; an exact match on a symbol bound to a
  concrete value answers at once; anything else goes to a loop that substitutes
  the whole table until there is no progress or no free symbol left;
- construction, where re-wrapping a resolver returns the same object;
- container behaviour (`__iter__`, `__bool__`);
- value equality and `__ne__`, plus the hash computed once on first request and cached;
- the JSON encode/decode pair.

Files and modules:

| file | module | contents |
|---|---|---|
| `wrappers.dfy` | `Wrappers` | `Option` |
| `symbolic.dfy` | `Symbolic` | a small expression language standing in for sympy: exact complex constants, symbols, `Add`, `Mul`; single-symbol substitution steps and passes of them, free symbols, evaluation of closed terms, and the name order sympy sorts symbols by |
| `tables.dfy` | `Tables` | keys, values, the table as its items in insertion order, `dict(...)`, dict equality, the order-independent hash |
| `resolution.dfy` | `Resolution` | what `value_of` computes: the early exits, and the loop unfolded with fuel (`Run`), with lemmas for each branch and for termination |
| `resolver.dfy` | `Resolver` | the `ParamResolver` class with its fields `paramDict` and `paramHash`, its methods and functions, and properties that relate several calls |
| `scenarios.dfy` | `Scenarios` | concrete tables checking each branch, including one table whose loop never stops |

Modelling decisions:

- **Keys.** A key is `NameKey(name)` or `SymKey(name)`. Python keeps the string `'x'` and `Symbol('x')` as two separate dict keys.
- **Values.** A value is `Number`, `Alias` (a string), `Expr` (a term) or `Other` (any other Python object).
- **Numbers** have exact real and imaginary parts. "Float" and "complex" results are told apart only by whether the imaginary part is zero.
- **Substitution.** `subs(param_dict)` follows what sympy's `Basic.subs` does with a dict argument:
  - each item is converted in table order: the key becomes its symbol, and the value a term. An alias string stands for the single symbol it names;
  - an item whose value cannot be converted (`Other`) is dropped, and so is one that would replace a symbol by itself;
  - the converted pairs go through `dict(...)`, so for each symbol the *last* item in the table wins, whether its key is the string or the Symbol (`Resolution.LastReplacement`). This is not the exact-match rule of lines 102-105, where the string key always wins;
  - the symbols are then replaced *one after another*, ordered by name (`Resolution.SubstSeq`, `Symbolic.SubstAll`). A later step also acts on what earlier steps put in.

  The algebra engine itself is not part of this model: there is no simplification and no canonical ordering of terms.
- **The loop** in `value_of` has no bound in the source. `ParamResolver.ValueOf` therefore requires `Terminates(paramDict, value)`: the loop started from the input reaches a stopping point after some finite number of rounds. The method's loop itself has no cap; it decreases a ghost count taken from that hypothesis.
  - `Resolution.AcyclicTerminates` proves the hypothesis whenever the bindings are acyclic under some rank function.
  - `Scenarios.SelfIncrementDiverges` proves that the hypothesis fails for `{x: x + 1}`.

Three points where the model follows the code closely, although a looser reading is tempting:

- The exact-match step checks both keys, and the string key overwrites the Symbol key (resolver.py:102-105). So the name key wins; the Symbol key is not tried "first".
- When a symbol is bound to a string or an expression, the loop starts from the symbol itself, not from the bound value (line 115 tests `value`, not `resolved`). So one `subs` call may go further than the bound value: under `{"x": "y", "y": 3}` it turns `x` into `3` at once (`Scenarios.ChainIsFollowed`).
- The dict keeps the string key and the Symbol key of one name as two separate entries. Equality compares them as different keys.

## Model

| member | source | states |
|---|---|---|
| `Resolver.ParamResolver.ValueOf` | cirq/study/resolver.py:66-128 | the returned value is what the model of `value_of` defines (`Resolution.Resolve`) for the table and the input, and a number comes back unchanged; the loop keeps the invariant that the run from the current term stops and yields that result |
| `Resolver.ParamResolver.GetItem` | cirq/study/resolver.py:136-138 | indexing returns exactly what `value_of` returns |
| `Resolver.ParamResolver.New` | cirq/study/resolver.py:52-64 | an existing resolver is given back as the identical object with its cached hash untouched; a dict gives a fresh resolver over that dict with no cached hash; `None` gives a fresh resolver over an empty table |
| `Resolver.ParamResolver.constructor` | cirq/study/resolver.py:57-64 | a new resolver holds the given table and no cached hash, and satisfies the invariant |
| `Resolver.ParamResolver.Keys` | cirq/study/resolver.py:130-131 | iteration yields the keys of the table in insertion order, one per entry; they are exactly the keys the dict binds, and each appears once |
| `Resolver.ParamResolver.Bool` | cirq/study/resolver.py:133-134 | the resolver is truthy exactly when the dict it denotes is non-empty |
| `Resolver.ParamResolver.Hash` | cirq/study/resolver.py:140-143 | the result is the hash of the table's items; afterwards it is cached in `paramHash`; a value cached earlier is returned as it is; the invariant that a cached hash equals the table's hash is kept |
| `Resolver.ParamResolver.Eq` | cirq/study/resolver.py:145-148 | `NotImplemented` exactly when the other operand is not a resolver; otherwise true exactly when the two dicts are equal |
| `Resolver.ParamResolver.Ne` | cirq/study/resolver.py:145-151 | against a resolver, `!=` is true exactly when `__eq__` says false; against any other object, `__eq__` declines, so `!=` follows the other object's own answer (the reflected call): it is false exactly when that object says equal, and true when it says unequal or declines too |
| `Resolver.ParamResolver.JsonDict` | cirq/study/resolver.py:160-165 | the record is tagged `ParamResolver`, and `dict(...)` of its list of pairs gives back the table entry for entry |
| `Resolver.ParamResolver.FromJsonDict` | cirq/study/resolver.py:167-169 | decoding builds a fresh, valid resolver over `dict(pairs)` with no cached hash |
| `Resolver.JsonRoundTrip` | cirq/study/resolver.py:160-169 | decoding the encoded pairs gives a resolver with the same table, equal to the original |
| `Resolver.EqIsEquivalence` | cirq/study/resolver.py:145-148 | resolver equality is reflexive, symmetric and transitive |
| `Resolver.EqualHashesForEqualResolvers` | cirq/study/resolver.py:140-148 | equal resolvers have equal hashes, whatever the insertion order of their tables |
| `Resolver.EqualIffSameItems` | cirq/study/resolver.py:142-148 | two resolvers are equal exactly when their sets of items are equal, so the hashed `frozenset` of items matches the equality |
| `Resolver.EmptyResolver` | cirq/study/resolver.py:62-64 | a resolver over the empty table is falsy, iterates over nothing and resolves every name to its own symbol |
| `Resolver.KeysAreBoundKeys` | cirq/study/resolver.py:130-131 | iteration visits exactly the bound keys, each once |
| `Tables.TableHashOfEqual` | cirq/study/resolver.py:142 | two dicts that denote the same mapping have the same hash, whatever their order |
| `Tables.SameItemsIffEqual` | cirq/study/resolver.py:142-148 | dict equality holds exactly when the item sets are equal, in both directions |
| `Tables.ChangedValueUnequal` | cirq/study/resolver.py:148 | changing the value of one entry makes the dict unequal to the original |
| `Tables.DictOfItems` | cirq/study/resolver.py:164-169 | `dict(list(d.items()))` rebuilds `d` exactly, in the same order |
| `Tables.DictOfIsDict` | cirq/study/resolver.py:169 | `dict(pairs)` has each key at most once, whatever the pairs |
| `Tables.DictOfMap` | cirq/study/resolver.py:169 | in `dict(pairs)` the last pair for a key decides its value |
| `Tables.AsMapEmpty` | cirq/study/resolver.py:133-134 | a table denotes the empty map exactly when it has no entries |
| `Resolution.NumberPassesThrough` | cirq/study/resolver.py:91-93 | a numeric input is returned unchanged, with no lookup or substitution |
| `Resolution.StringIsSymbol` | cirq/study/resolver.py:95-97 | a string resolves exactly as the symbol of the same name, and one terminates exactly when the other does |
| `Resolution.ExactMatchPriority` | cirq/study/resolver.py:100-105 | the exact match uses the string key when present, otherwise the Symbol key, otherwise nothing |
| `Resolution.BoundValueShortcut` | cirq/study/resolver.py:106-109 | a symbol bound to a number or a non-sympy object resolves to exactly that bound value, without the loop |
| `Resolution.SymbolicBindingLoops` | cirq/study/resolver.py:106-115 | a formula, or a symbol that is unbound or bound to a string or an expression, is handed to the loop as that symbol or formula |
| `Resolution.UnboundSymbol` | cirq/study/resolver.py:115-122 | a symbol with no binding terminates and comes back unchanged |
| `Resolution.LastReplacementIsLast` | cirq/study/resolver.py:116 | the replacement `subs` uses for a symbol is the value of the last item whose key names that symbol and whose value converts to something else; there is none exactly when no item does |
| `Resolution.SubstSeqAt` | cirq/study/resolver.py:116 | one `subs` call replaces symbol `n` by `t` exactly when the last such item gives `t`, and visits the symbols in strictly increasing name order, each at most once |
| `Resolution.FixedPointIsFirstStop` | cirq/study/resolver.py:115-125 | the loop's result is the outcome at the first term of the sequence `t, subs(t), subs(subs(t)), ...` at which substitution closes the term or changes nothing |
| `Resolution.ProgressStep` | cirq/study/resolver.py:117-121 | when substitution makes progress and free symbols remain, the loop goes on from the substituted term: it stops, and gives the same result, exactly when the loop from that term does |
| `Resolution.NoProgress` | cirq/study/resolver.py:117-122 | when substitution changes nothing and free symbols remain, the loop stops and returns the term unchanged |
| `Resolution.ClosedResult` | cirq/study/resolver.py:123-125 | when substitution leaves no free symbol, the result is the evaluated value, complex exactly when its imaginary part is non-zero and real otherwise |
| `Resolution.FixedPointShape` | cirq/study/resolver.py:115-125 | the loop never returns an unresolved input; a partial result is a fixed point of substitution with free symbols; a complex result has a non-zero imaginary part |
| `Resolution.ResolveShape` | cirq/study/resolver.py:66-128 | resolution never fails: the result is the input, an exactly matched bound value, a real or complex number, or a term that substitution no longer changes and that still has free symbols |
| `Resolution.AcyclicTerminates` | cirq/study/resolver.py:115-121 | if every symbol in a replacement ranks strictly below the symbol it replaces, `value_of` terminates on every input |
| `Resolution.RankedStep` | cirq/study/resolver.py:116-121 | under acyclic bindings one `subs` call, with its steps applied in order, lowers the highest rank of a bound symbol left in the term |
| `Resolution.RunMonotone` | cirq/study/resolver.py:115-121 | once the loop has stopped within some number of rounds, allowing more rounds changes nothing |
| `Resolution.EmptyTableResolvesToItself` | cirq/study/resolver.py:115-122 | with an empty table, every expression that has free symbols resolves to itself |
| `Symbolic.Subst1FreeSymbols` | cirq/study/resolver.py:116-117 | after one substitution step, a free symbol is a free symbol of the original other than the replaced one, or, when that one occurred, a free symbol of its replacement; and conversely |
| `Symbolic.Subst1Idle` | cirq/study/resolver.py:116 | a step for a symbol that does not occur changes nothing |
| `Symbolic.SubstAllIdle` | cirq/study/resolver.py:116-119 | a whole `subs` pass changes nothing when none of the term's symbols has a step |
| `Symbolic.SubstAllFreeSymbols` | cirq/study/resolver.py:116-117 | after a pass, a free symbol is a free symbol of the original that no step replaces, or a free symbol of some step's replacement |
| `Symbolic.SortNamesCorrect` | cirq/study/resolver.py:116 | the order of the steps keeps exactly the given names, each once, strictly increasing |
| `Scenarios.StringAndSymbolAgree` | cirq/study/resolver.py:95-109 | `{"x": 2}` resolves both `"x"` and `Symbol("x")` to 2 |
| `Scenarios.NameKeyWins` | cirq/study/resolver.py:101-105 | with `Symbol("x"): 1` and `"x": 2`, `Symbol("x")` resolves to 2 |
| `Scenarios.ChainIsFollowed` | cirq/study/resolver.py:115-125 | `{"x": "y", "y": 3}` resolves `"x"` to the real number 3 in one `subs` call |
| `Scenarios.ChainAgainstOrder` | cirq/study/resolver.py:115-125 | `{"y": "x", "x": 3}` resolves `"y"` to 3: the first call reaches `x`, the second 3 |
| `Scenarios.SwapStops` | cirq/study/resolver.py:115-122 | `{"x": "y", "y": "x"}` resolves `"x"` to the symbol `x`: one call maps `x` to `y` and back, so there is no progress |
| `Scenarios.LaterItemWinsInSubs` | cirq/study/resolver.py:100-125 | under `{"x": "y", Symbol("x"): 5}` the exact match finds the alias `"y"`, but `subs` uses the later item, so `"x"` resolves to the real number 5 |
| `Scenarios.SelfBindingStops` | cirq/study/resolver.py:117-122 | `{x: x}` resolves `"x"` to the symbol `x`, unresolved |
| `Scenarios.ComplexResult` | cirq/study/resolver.py:123-124 | under `{"x": i*2}`, `x + 1` resolves to the complex number 1 + 2i |
| `Scenarios.SelfIncrementDiverges` | cirq/study/resolver.py:115-121 | under `{x: x + 1}` the loop makes progress forever, so `value_of("x")` never returns |

## Left out

- `Resolver.ParamResolver.ValueOf`: requires `Terminates`. The source has no such precondition. On an input for which the loop never stops, it loops forever, and a verified method cannot model that. `Scenarios.SelfIncrementDiverges` shows such an input.
- `Resolver.ParamResolver.GetItem`: has the same `Terminates` precondition, for the same reason.
- The sympy algebra engine is not part of this model. Each substitution step is a structural replacement, without simplification (sympy turns `x - x` into `0`) and without sympy's canonical ordering of arguments. So a term that sympy turns into a number can stay symbolic in the model: under `{"x": 0}`, `x*y` resolves to `Symbolic(Mul(Const(0), Sym("y")))`, whereas sympy evaluates `0*y` to `0` and the source returns `0.0` (lines 117 and 125). Also the "made progress" test is structural inequality of terms, and `free_symbols`, `im` and numeric conversion act on the small term language. A string value is read as a single symbol name; sympy's parsing of formula strings is not modelled.
- The order of the substitution steps is sympy's order for keys that are all symbols: by name. Sympy also handles non-symbol keys and infinite values first; neither can occur in this model.
- The version-dependent handling of unconvertible bindings inside `subs` is not modelled. The model skips a binding to an `Other` object.
- Sympy's own number objects given as input are modelled as `Expr(Const …)` terms, which go through the loop. Whether sympy registers them as `numbers.Number` depends on the sympy version, which is not part of this model.
- Python `float` and `complex` arithmetic: numbers are exact. Only the real-versus-complex classification is modelled.
- `Resolver.ParamResolver.Eq`: compares bound values as model values, not with Python's `==`. Two values that Python treats as equal but that are different model values make the model answer false: for example the number 2 and the sympy integer 2 (`Number(n)` against `Expr(Const(n))`), an alias string against an equal sympy expression, or `y + 1` against `1 + y`, which sympy orders the same way. The lemmas `Resolver.EqualIffSameItems`, `Resolver.EqIsEquivalence` and `Tables.SameItemsIffEqual` are about this structural equality.
- `Resolver.ParamResolver.Ne`: the other object's reflected `__eq__` answer is modelled as true, false or declined (`Foreign(reflected)`). A non-boolean answer, and an `__ne__` of its own that Python could try, are not modelled.
- `Resolver.ParamResolver.Hash`: never fails. At line 142 the source raises `TypeError` when a bound value is unhashable (a list, say); the model treats every value as hashable.
- The concrete value of Python's `hash`: a deterministic stand-in, with unbounded integers and no 64-bit truncation. It is summed over the entries, so it ignores order as `frozenset` does. Only caching, and agreement with equality, are claimed.
- Python's resolver keeps a reference to the caller's dict, so a later change to that dict leaks into the resolver. The model copies the table by value.
- The concurrency remark about the hash cache: the model is sequential.
- `__new__`/`__init__` mechanics: modelled as the factory `New` plus a constructor. Subclasses and their `__class__.__name__` in `_json_dict_` are not modelled; the tag is always `ParamResolver`.
- `__repr__`, `proper_repr` and the `document(...)` calls at lines 29-36: these are text rendering and documentation.
- An `InvalidExpression` error kind: model substitution is total, so no such error arises.
- examples/bell_inequality.py: a demo program (circuit building, numpy trigonometry, random simulation, printing), not part of this model.
