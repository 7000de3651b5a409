/** The binding table `param_dict`: a Python dict from parameter keys to
    values, kept as its list of items in insertion order. */
module Tables {
  import opened Wrappers
  import opened Symbolic

  /** Python keeps the string `'x'` and `sympy.Symbol('x')` as distinct keys. */
  datatype Key = NameKey(name: string) | SymKey(name: string)

  /** A bound value: a number, an alias string, a sympy expression, or any
      other Python object (identified by an opaque id). */
  datatype Value =
    | Number(n: Num)
    | Alias(name: string)
    | Expr(t: Term)
    | Other(id: int)

  type Entry = (Key, Value)

  /** `dict.items()`, in insertion order. */
  type Table = seq<Entry>

  /** A Python dict holds each key at most once. */
  ghost predicate IsDict(t: Table)
  {
    forall i, j :: 0 <= i < j < |t| ==> t[i].0 != t[j].0
  }

  /** The mapping a table denotes; dict equality is equality of this map. */
  function AsMap(t: Table): map<Key, Value>
  {
    if t == [] then map[] else AsMap(t[1..])[t[0].0 := t[0].1]
  }

  /** `d[k] = v`: overwrite the value in place, or append a new entry. */
  function Put(t: Table, k: Key, v: Value): Table
  {
    if t == [] then [(k, v)]
    else if t[0].0 == k then [(k, v)] + t[1..]
    else [t[0]] + Put(t[1..], k, v)
  }

  /** `dict(pairs)`: insert the pairs one after another. */
  function DictOf(pairs: seq<Entry>): Table
  {
    if pairs == [] then [] else Put(DictOf(pairs[..|pairs| - 1]), pairs[|pairs| - 1].0, pairs[|pairs| - 1].1)
  }

  // ----- hashing -----
  // The concrete Python hash values are not modelled; these are deterministic
  // stand-ins. What matters is that the table hash is combined from the
  // per-entry hashes by a sum, which, as for `frozenset`, ignores order.

  function StrHash(s: string): int
  {
    if s == [] then 0 else 31 * StrHash(s[..|s| - 1]) + s[|s| - 1] as int
  }

  function NumHash(n: Num): int
  {
    n.re.Floor + 1000003 * n.im.Floor
  }

  function TermHash(t: Term): int
  {
    match t
    case Const(n) => NumHash(n)
    case Sym(s) => StrHash(s)
    case Add(l, r) => 3 * TermHash(l) + 5 * TermHash(r) + 1
    case Mul(l, r) => 7 * TermHash(l) + 11 * TermHash(r) + 2
  }

  function KeyHash(k: Key): int
  {
    match k
    case NameKey(s) => 2 * StrHash(s)
    case SymKey(s) => 2 * StrHash(s) + 1
  }

  function ValueHash(v: Value): int
  {
    match v
    case Number(n) => NumHash(n)
    case Alias(s) => StrHash(s)
    case Expr(t) => TermHash(t)
    case Other(id) => id
  }

  function EntryHash(e: Entry): int
  {
    KeyHash(e.0) * 1000033 + ValueHash(e.1)
  }

  /** `hash(frozenset(param_dict.items()))`. */
  function TableHash(t: Table): int
  {
    if t == [] then 0 else EntryHash(t[0]) + TableHash(t[1..])
  }

  // ----- lemmas about the table -----

  /** The keys of the denoted map are exactly the keys of the entries. */
  lemma {:induction false} AsMapKeys(t: Table, k: Key)
    ensures k in AsMap(t) <==> exists i :: 0 <= i < |t| && t[i].0 == k
  {
    if t != [] {
      AsMapKeys(t[1..], k);
      if k != t[0].0 && k in AsMap(t) {
        var i :| 0 <= i < |t| - 1 && t[1..][i].0 == k;
        assert t[i + 1].0 == k;
      }
      if exists i :: 0 <= i < |t| && t[i].0 == k {
        var i :| 0 <= i < |t| && t[i].0 == k;
        if i > 0 {
          assert t[1..][i - 1].0 == k;
        }
      }
    }
  }

  /** In a dict, the map sends each entry's key to that entry's value. */
  lemma AsMapKeysAll(t: Table)
    ensures forall k :: k in AsMap(t) <==> exists i :: 0 <= i < |t| && t[i].0 == k
  {
    forall k ensures k in AsMap(t) <==> exists i :: 0 <= i < |t| && t[i].0 == k {
      AsMapKeys(t, k);
    }
  }

  lemma {:induction false} AsMapAt(t: Table, i: int)
    requires IsDict(t) && 0 <= i < |t|
    ensures t[i].0 in AsMap(t) && AsMap(t)[t[i].0] == t[i].1
  {
    AsMapKeys(t, t[i].0);
    if i > 0 {
      assert t[1..][i - 1] == t[i];
      AsMapAt(t[1..], i - 1);
    }
  }

  /** A table denotes the empty map exactly when it has no entries. */
  lemma AsMapEmpty(t: Table)
    ensures AsMap(t) == map[] <==> t == []
  {
    if t != [] {
      assert t[0].0 in AsMap(t);
    }
  }

  /** Writing a key updates the denoted map at that key and nowhere else. */
  lemma {:induction false} PutMap(t: Table, k: Key, v: Value)
    ensures AsMap(Put(t, k, v)) == AsMap(t)[k := v]
  {
    if t != [] && t[0].0 != k {
      PutMap(t[1..], k, v);
      assert ([t[0]] + Put(t[1..], k, v))[1..] == Put(t[1..], k, v);
    } else if t != [] {
      assert ([(k, v)] + t[1..])[1..] == t[1..];
    }
  }

  /** Every key of a written table is the written key or an old key. */
  lemma {:induction false} PutKeys(t: Table, k: Key, v: Value, i: int)
    requires 0 <= i < |Put(t, k, v)|
    ensures Put(t, k, v)[i].0 == k || exists m :: 0 <= m < |t| && t[m].0 == Put(t, k, v)[i].0
  {
    if t != [] && i > 0 {
      if t[0].0 == k {
        assert Put(t, k, v)[i] == t[i];
      } else {
        var rest := Put(t[1..], k, v);
        assert Put(t, k, v)[i] == rest[i - 1];
        PutKeys(t[1..], k, v, i - 1);
        if rest[i - 1].0 != k {
          var m :| 0 <= m < |t[1..]| && t[1..][m].0 == rest[i - 1].0;
          assert t[m + 1] == t[1..][m];
        }
      }
    }
  }

  /** Writing keeps a dict a dict. */
  lemma {:induction false} PutDict(t: Table, k: Key, v: Value)
    requires IsDict(t)
    ensures IsDict(Put(t, k, v))
  {
    if t != [] && t[0].0 != k {
      assert IsDict(t[1..]) by {
        forall i, j | 0 <= i < j < |t| - 1 ensures t[1..][i].0 != t[1..][j].0 {
          assert t[1..][i] == t[i + 1] && t[1..][j] == t[j + 1];
        }
      }
      PutDict(t[1..], k, v);
      PutDictCons(t, k, v);
    } else if t != [] {
      var p := Put(t, k, v);
      forall i, j | 0 <= i < j < |p| ensures p[i].0 != p[j].0 {
        assert p[i].0 == t[i].0 && p[j].0 == t[j].0;
      }
    }
  }

  lemma PutDictCons(t: Table, k: Key, v: Value)
    requires IsDict(t) && t != [] && t[0].0 != k && IsDict(Put(t[1..], k, v))
    ensures IsDict(Put(t, k, v))
  {
    var rest := Put(t[1..], k, v);
    var p := Put(t, k, v);
    assert p == [t[0]] + rest;
    forall i, j | 0 <= i < j < |p| ensures p[i].0 != p[j].0 {
      if i == 0 {
        assert p[j] == rest[j - 1];
        PutKeys(t[1..], k, v, j - 1);
        if rest[j - 1].0 != k {
          var m :| 0 <= m < |t[1..]| && t[1..][m].0 == rest[j - 1].0;
          assert t[m + 1] == t[1..][m];
        }
      } else {
        assert p[i] == rest[i - 1] && p[j] == rest[j - 1];
      }
    }
  }

  /** Writing a key the dict lacks appends it. */
  lemma {:induction false} PutFresh(t: Table, k: Key, v: Value)
    requires forall i :: 0 <= i < |t| ==> t[i].0 != k
    ensures Put(t, k, v) == t + [(k, v)]
  {
    if t != [] {
      PutFresh(t[1..], k, v);
      assert [t[0]] + (t[1..] + [(k, v)]) == t + [(k, v)];
    }
  }

  /** `dict(pairs)` is a dict, whatever the pairs. */
  lemma {:induction false} DictOfIsDict(pairs: seq<Entry>)
    ensures IsDict(DictOf(pairs))
  {
    if pairs != [] {
      DictOfIsDict(pairs[..|pairs| - 1]);
      PutDict(DictOf(pairs[..|pairs| - 1]), pairs[|pairs| - 1].0, pairs[|pairs| - 1].1);
    }
  }

  /** `dict(list(d.items()))` rebuilds `d` entry for entry, in the same order. */
  lemma {:induction false} DictOfItems(t: Table)
    requires IsDict(t)
    ensures DictOf(t) == t
  {
    if t != [] {
      var n := |t| - 1;
      var init := t[..n];
      assert IsDict(init) by {
        forall i, j | 0 <= i < j < |init| ensures init[i].0 != init[j].0 {
          assert init[i] == t[i] && init[j] == t[j];
        }
      }
      DictOfItems(init);
      forall i | 0 <= i < |init| ensures init[i].0 != t[n].0 {
        assert init[i] == t[i];
      }
      PutFresh(init, t[n].0, t[n].1);
      assert init + [t[n]] == t;
    }
  }

  /** `dict(pairs)` denotes the map in which the last pair for each key wins. */
  lemma {:induction false} DictOfMap(pairs: seq<Entry>)
    ensures pairs != [] ==>
      AsMap(DictOf(pairs)) == AsMap(DictOf(pairs[..|pairs| - 1]))[pairs[|pairs| - 1].0 := pairs[|pairs| - 1].1]
  {
    if pairs != [] {
      PutMap(DictOf(pairs[..|pairs| - 1]), pairs[|pairs| - 1].0, pairs[|pairs| - 1].1);
    }
  }

  lemma {:induction false} TableHashAppend(a: Table, b: Table)
    ensures TableHash(a + b) == TableHash(a) + TableHash(b)
  {
    if a != [] {
      assert (a + b)[0] == a[0];
      assert (a + b)[1..] == a[1..] + b;
      TableHashAppend(a[1..], b);
    } else {
      assert a + b == b;
    }
  }

  /** Removing entry `j` of a dict leaves a dict denoting the map without
      that key, whose hash lacks exactly that entry's hash. */
  lemma RemoveEntry(t: Table, j: int)
    requires IsDict(t) && 0 <= j < |t|
    ensures IsDict(t[..j] + t[j + 1..])
    ensures AsMap(t[..j] + t[j + 1..]) == AsMap(t) - {t[j].0}
    ensures TableHash(t) == EntryHash(t[j]) + TableHash(t[..j] + t[j + 1..])
  {
    RemoveDict(t, j);
    RemoveMap(t, j);
    RemoveHash(t, j);
  }

  lemma RemoveHash(t: Table, j: int)
    requires 0 <= j < |t|
    ensures TableHash(t) == EntryHash(t[j]) + TableHash(t[..j] + t[j + 1..])
  {
    var tail := t[j..];
    assert t[..j] + tail == t;
    assert tail[0] == t[j] && tail[1..] == t[j + 1..];
    TableHashAppend(t[..j], tail);
    TableHashAppend(t[..j], t[j + 1..]);
  }

  lemma RemoveDict(t: Table, j: int)
    requires IsDict(t) && 0 <= j < |t|
    ensures IsDict(t[..j] + t[j + 1..])
  {
    var r := t[..j] + t[j + 1..];
    forall i, m | 0 <= i < m < |r| ensures r[i].0 != r[m].0 {
      var i' := if i < j then i else i + 1;
      var m' := if m < j then m else m + 1;
      assert r[i] == t[i'] && r[m] == t[m'];
    }
  }

  lemma RemoveMap(t: Table, j: int)
    requires IsDict(t) && 0 <= j < |t|
    requires IsDict(t[..j] + t[j + 1..])
    ensures AsMap(t[..j] + t[j + 1..]) == AsMap(t) - {t[j].0}
  {
    var r := t[..j] + t[j + 1..];
    forall k ensures k in AsMap(r) <==> k in AsMap(t) - {t[j].0} {
      RemoveKey(t, j, k);
    }
    forall k | k in AsMap(r) ensures AsMap(r)[k] == AsMap(t)[k] {
      RemoveValue(t, j, k);
    }
  }

  lemma RemoveIndex(t: Table, j: int, i: int)
    requires 0 <= j < |t| && 0 <= i < |t| - 1
    ensures (t[..j] + t[j + 1..])[i] == t[if i < j then i else i + 1]
  {
  }

  lemma RemoveKey(t: Table, j: int, k: Key)
    requires IsDict(t) && 0 <= j < |t|
    ensures k in AsMap(t[..j] + t[j + 1..]) <==> k in AsMap(t) && k != t[j].0
  {
    var r := t[..j] + t[j + 1..];
    AsMapKeys(r, k);
    AsMapKeys(t, k);
    if k in AsMap(t) && k != t[j].0 {
      var i :| 0 <= i < |t| && t[i].0 == k;
      RemoveIndex(t, j, if i < j then i else i - 1);
    }
    if k in AsMap(r) {
      var i :| 0 <= i < |r| && r[i].0 == k;
      RemoveIndex(t, j, i);
    }
  }

  lemma RemoveValue(t: Table, j: int, k: Key)
    requires IsDict(t) && 0 <= j < |t| && IsDict(t[..j] + t[j + 1..])
    requires k in AsMap(t[..j] + t[j + 1..])
    ensures k in AsMap(t) && AsMap(t[..j] + t[j + 1..])[k] == AsMap(t)[k]
  {
    var r := t[..j] + t[j + 1..];
    AsMapKeys(r, k);
    var i :| 0 <= i < |r| && r[i].0 == k;
    RemoveIndex(t, j, i);
    AsMapAt(r, i);
    AsMapAt(t, if i < j then i else i + 1);
  }

  /** Equal dicts have equal hashes, whatever their insertion order. */
  lemma {:induction false} TableHashOfEqual(a: Table, b: Table)
    requires IsDict(a) && IsDict(b) && AsMap(a) == AsMap(b)
    ensures TableHash(a) == TableHash(b)
    decreases |a|
  {
    if a == [] {
      AsMapEmpty(b);
    } else {
      var e := a[0];
      AsMapAt(a, 0);
      AsMapKeys(b, e.0);
      var j :| 0 <= j < |b| && b[j].0 == e.0;
      AsMapAt(b, j);
      RemoveEntry(b, j);
      RemoveEntry(a, 0);
      assert a[..0] + a[1..] == a[1..];
      TableHashOfEqual(a[1..], b[..j] + b[j + 1..]);
    }
  }

  /** Two dicts are equal exactly when they hold the same set of items,
      so `frozenset(items())` is determined by, and determines, the dict. */
  lemma SameItemsIffEqual(a: Table, b: Table)
    requires IsDict(a) && IsDict(b)
    ensures AsMap(a) == AsMap(b) <==> (forall e :: e in a <==> e in b)
  {
    if AsMap(a) == AsMap(b) {
      forall e ensures e in a ==> e in b {
        if e in a {
          var i :| 0 <= i < |a| && a[i] == e;
          AsMapAt(a, i);
          AsMapKeys(b, e.0);
          var j :| 0 <= j < |b| && b[j].0 == e.0;
          AsMapAt(b, j);
          assert b[j] == e;
        }
      }
      forall e ensures e in b ==> e in a {
        if e in b {
          var i :| 0 <= i < |b| && b[i] == e;
          AsMapAt(b, i);
          AsMapKeys(a, e.0);
          var j :| 0 <= j < |a| && a[j].0 == e.0;
          AsMapAt(a, j);
          assert a[j] == e;
        }
      }
    }
    if forall e :: e in a <==> e in b {
      forall k ensures k in AsMap(a) <==> k in AsMap(b) {
        AsMapKeys(a, k);
        AsMapKeys(b, k);
        if k in AsMap(a) {
          var i :| 0 <= i < |a| && a[i].0 == k;
          assert a[i] in b;
        }
        if k in AsMap(b) {
          var i :| 0 <= i < |b| && b[i].0 == k;
          assert b[i] in a;
        }
      }
      forall k | k in AsMap(a) ensures AsMap(a)[k] == AsMap(b)[k] {
        AsMapKeys(a, k);
        var i :| 0 <= i < |a| && a[i].0 == k;
        AsMapAt(a, i);
        assert a[i] in b;
        var j :| 0 <= j < |b| && b[j] == a[i];
        AsMapAt(b, j);
      }
    }
  }

  /** Changing the value of one entry of a dict changes the dict. */
  lemma ChangedValueUnequal(t: Table, i: int, v: Value)
    requires IsDict(t) && 0 <= i < |t| && t[i].1 != v
    ensures IsDict(t[i := (t[i].0, v)])
    ensures AsMap(t[i := (t[i].0, v)]) != AsMap(t)
  {
    var u := t[i := (t[i].0, v)];
    assert IsDict(u) by {
      forall a, b | 0 <= a < b < |u| ensures u[a].0 != u[b].0 {
        assert u[a].0 == t[a].0 && u[b].0 == t[b].0;
      }
    }
    AsMapAt(t, i);
    AsMapAt(u, i);
  }
}
