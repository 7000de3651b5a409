/** `cirq.ParamResolver`: a binding table with resolution, container
    behaviour, value equality, a lazily cached hash and a JSON form. */
module Resolver {
  import opened Wrappers
  import opened Symbolic
  import opened Tables
  import opened Resolution

  /** What the constructor may be given: a resolver, a dict, or `None`. */
  datatype Source = FromResolver(r: ParamResolver) | FromDict(d: Table) | FromNone

  /** The right-hand operand of `==` and `!=`: a resolver, or any other
      object together with what its own `__eq__` answers when given the
      resolver (`None` for `NotImplemented`). */
  datatype Comparand = ToResolver(r: ParamResolver) | Foreign(reflected: Option<bool>)

  /** The record `_json_dict_` produces. */
  datatype JsonRecord = JsonRecord(cirqType: string, paramDict: seq<Entry>)

  class ParamResolver {
    /** `param_dict`; never reassigned once the resolver is built. */
    const paramDict: Table
    /** `_param_hash`: `None` until `__hash__` is first called. */
    var paramHash: Option<int>

    ghost predicate Valid()
      reads this
    {
      IsDict(paramDict) && (paramHash.Some? ==> paramHash.value == TableHash(paramDict))
    }

    /** `__init__` on a fresh instance. */
    constructor (d: Table)
      requires IsDict(d)
      ensures Valid() && paramDict == d && paramHash == None
    {
      paramDict := d;
      paramHash := None;
    }

    /** `ParamResolver(x)` (lines 52-64): an existing resolver is returned
        itself, untouched; otherwise a fresh resolver over the dict, or over
        an empty one for `None`. */
    static method New(src: Source) returns (r: ParamResolver)
      requires src.FromResolver? ==> src.r.Valid()
      requires src.FromDict? ==> IsDict(src.d)
      ensures r.Valid()
      ensures src.FromResolver? ==> r == src.r && r.paramHash == old(r.paramHash)
      ensures src.FromDict? ==> fresh(r) && r.paramDict == src.d && r.paramHash == None
      ensures src.FromNone? ==> fresh(r) && r.paramDict == [] && r.paramHash == None
    {
      match src
      case FromResolver(existing) =>
        r := existing;
      case FromDict(d) =>
        r := new ParamResolver(d);
      case FromNone =>
        r := new ParamResolver([]);
    }

    /** `value_of` (lines 66-128). The loop has no bound of its own; callers
        that reach it must know that substitution stops (`Terminates`). */
    method ValueOf(value: Value) returns (r: ParamVal)
      requires Terminates(paramDict, value)
      ensures r == Resolve(paramDict, value)
      ensures value.Number? ==> r == AsIs(value)
    {
      // Numerical inputs need no resolution.
      if value.Number? {
        return AsIs(value);
      }
      // A string is shorthand for the symbol of that name.
      var expr: Option<Term> :=
        match value
        case Alias(s) => Some(Sym(s))
        case Expr(t) => Some(t)
        case _ => None;
      // Exact match of a symbol that is bound to a non-symbolic value.
      if expr.Some? && expr.value.Sym? {
        var key := ExactKey(paramDict, expr.value.name);
        if key.Some? {
          var resolved := AsMap(paramDict)[key.value];
          if !(resolved.Expr? || resolved.Alias?) {
            return AsIs(resolved);
          }
        }
      }
      // Repeated substitution until no progress or no free symbols.
      if expr.Some? {
        var t := expr.value;
        assert Prelude(paramDict, value) == Loop(t);
        ghost var fuel: nat :| Run(paramDict, t, fuel).Some?;
        FixedPointRun(paramDict, t, fuel);
        while true
          invariant Run(paramDict, t, fuel).Some?
          invariant Run(paramDict, t, fuel).value == Resolve(paramDict, value)
          decreases fuel
        {
          var v := Substitute(paramDict, t);
          if FreeSymbols(v) != {} {
            if v != t {
              t := v;
              fuel := fuel - 1;
              continue;
            }
            return Symbolic(v);
          }
          var n := Eval(v);
          if n.im != 0.0 {
            return Complex(n.re, n.im);
          }
          return Real(n.re);
        }
      }
      // No known way to resolve this value.
      return AsIs(value);
    }

    /** `__getitem__` (lines 136-138): the same as `value_of`. */
    method GetItem(key: Value) returns (r: ParamVal)
      requires Terminates(paramDict, key)
      ensures r == Resolve(paramDict, key)
    {
      r := ValueOf(key);
    }

    /** `__iter__` (lines 130-131): the bound keys, in insertion order. */
    function Keys(): (ks: seq<Key>)
      ensures |ks| == |paramDict|
      ensures forall i :: 0 <= i < |ks| ==> ks[i] == paramDict[i].0
      ensures forall k :: k in ks <==> k in AsMap(paramDict)
      ensures IsDict(paramDict) ==> forall i, j :: 0 <= i < j < |ks| ==> ks[i] != ks[j]
    {
      AsMapKeysAll(paramDict);
      seq(|paramDict|, i requires 0 <= i < |paramDict| => paramDict[i].0)
    }

    /** `__bool__` (lines 133-134): true exactly when something is bound. */
    function Bool(): (b: bool)
      ensures b <==> AsMap(paramDict) != map[]
    {
      AsMapEmpty(paramDict);
      |paramDict| != 0
    }

    /** `__hash__` (lines 140-143): computed on the first call, then cached. */
    method Hash() returns (h: int)
      requires Valid()
      modifies this`paramHash
      ensures Valid()
      ensures h == TableHash(paramDict) && paramHash == Some(h)
      ensures old(paramHash).Some? ==> h == old(paramHash).value
    {
      if paramHash.None? {
        paramHash := Some(TableHash(paramDict));
      }
      h := paramHash.value;
    }

    /** `__eq__` (lines 145-148): `NotImplemented` (here `None`) against a
        non-resolver, otherwise dict equality of the tables. */
    function Eq(other: Comparand): (r: Option<bool>)
      ensures other.Foreign? <==> r.None?
      ensures other.ToResolver? ==> (r == Some(true) <==> AsMap(paramDict) == AsMap(other.r.paramDict))
    {
      match other
      case Foreign(_) => None
      case ToResolver(o) => Some(AsMap(paramDict) == AsMap(o.paramDict))
    }

    /** `__ne__` (lines 150-151): `not self == other`. When `__eq__` gives
        `NotImplemented`, Python's `==` asks the other object's `__eq__`
        (the reflected call) and, if that declines too, compares identity,
        which is false for a foreign object. */
    function Ne(other: Comparand): (r: bool)
      ensures other.ToResolver? ==> (r <==> Eq(other) == Some(false))
      ensures other.Foreign? ==> (r <==> other.reflected != Some(true))
    {
      var equal :=
        match Eq(other)
        case Some(b) => b
        case None =>
          match other.reflected
          case Some(b) => b
          case None => false;
      !equal
    }

    /** `_json_dict_` (lines 160-165): the type tag and the items as a list. */
    function JsonDict(): (j: JsonRecord)
      requires IsDict(paramDict)
      ensures j.cirqType == "ParamResolver"
      ensures DictOf(j.paramDict) == paramDict
    {
      DictOfItems(paramDict);
      JsonRecord("ParamResolver", paramDict)
    }

    /** `_from_json_dict_` (lines 167-169): a fresh resolver over `dict(pairs)`. */
    static method FromJsonDict(pairs: seq<Entry>) returns (r: ParamResolver)
      ensures fresh(r) && r.Valid() && r.paramHash == None
      ensures r.paramDict == DictOf(pairs)
    {
      DictOfIsDict(pairs);
      r := new ParamResolver(DictOf(pairs));
    }
  }

  // ----- properties relating several calls -----

  /** Equality is an equivalence relation. */
  lemma EqIsEquivalence(a: ParamResolver, b: ParamResolver, c: ParamResolver)
    ensures a.Eq(ToResolver(a)) == Some(true)
    ensures a.Eq(ToResolver(b)) == b.Eq(ToResolver(a))
    ensures a.Eq(ToResolver(b)) == Some(true) && b.Eq(ToResolver(c)) == Some(true) ==> a.Eq(ToResolver(c)) == Some(true)
  {
  }

  /** Equal resolvers have equal hashes, whatever their insertion order. */
  lemma EqualHashesForEqualResolvers(a: ParamResolver, b: ParamResolver)
    requires IsDict(a.paramDict) && IsDict(b.paramDict)
    requires a.Eq(ToResolver(b)) == Some(true)
    ensures TableHash(a.paramDict) == TableHash(b.paramDict)
  {
    TableHashOfEqual(a.paramDict, b.paramDict);
  }

  /** Resolvers are equal exactly when their item sets are equal, and a
      difference in one value makes them unequal. */
  lemma EqualIffSameItems(a: ParamResolver, b: ParamResolver)
    requires IsDict(a.paramDict) && IsDict(b.paramDict)
    ensures a.Eq(ToResolver(b)) == Some(true) <==> (forall e :: e in a.paramDict <==> e in b.paramDict)
  {
    SameItemsIffEqual(a.paramDict, b.paramDict);
  }

  /** Decoding the JSON form gives a resolver equal to the original. */
  lemma JsonRoundTrip(r: ParamResolver, s: ParamResolver)
    requires IsDict(r.paramDict) && s.paramDict == DictOf(r.JsonDict().paramDict)
    ensures s.paramDict == r.paramDict
    ensures r.Eq(ToResolver(s)) == Some(true)
  {
  }

  /** The empty resolver is falsy, iterates over nothing and resolves every
      symbol to itself. */
  lemma EmptyResolver(r: ParamResolver, s: string)
    requires r.paramDict == []
    ensures !r.Bool() && r.Keys() == []
    ensures Terminates(r.paramDict, Alias(s)) && Resolve(r.paramDict, Alias(s)) == Symbolic(Sym(s))
  {
    EmptyTableResolvesToItself(Sym(s));
  }

  /** Iteration visits every bound key exactly once. */
  lemma KeysAreBoundKeys(r: ParamResolver, k: Key)
    requires IsDict(r.paramDict)
    ensures k in r.Keys() <==> k in AsMap(r.paramDict)
    ensures forall i, j :: 0 <= i < j < |r.Keys()| ==> r.Keys()[i] != r.Keys()[j]
  {
    AsMapKeys(r.paramDict, k);
  }
}
