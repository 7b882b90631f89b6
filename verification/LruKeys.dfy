/**
 The cache keys that `_make_key` makes of positional and keyword arguments. A key is a flat sequence of
 objects, in which argument values, keyword names and types stand side by side; the question is whether
 two different argument lists can get the same key.
 */
module LruKeys {
  /**
   An object up to Python's ==. `Mark` is the private object separating positional from keyword
   arguments. Keyword names are strings; a name is represented by its place in the order of strings.
   */
  datatype Obj = Mark | Name(rank: nat) | Other(id: int)

  /** An argument: what it is equal to, and its type. 3 and 3.0 are equal, with different types. */
  datatype Arg = Arg(value: Obj, kind: Obj)

  /** The arguments of one call. Callers have no access to the mark object. */
  datatype Call = Call(args: seq<Arg>, kwds: map<nat, Arg>)

  ghost predicate ValidCall(c: Call) {
    && (forall i :: 0 <= i < |c.args| ==> c.args[i].value != Mark && c.args[i].kind != Mark)
    && (forall n :: n in c.kwds ==> c.kwds[n].value != Mark && c.kwds[n].kind != Mark)
  }

  /** A bare object (a hash shortcut), a tuple, or the list with a cached hash. */
  datatype Key = Bare(obj: Obj) | Tuple(items: seq<Obj>) | HashedSeq(items: seq<Obj>)

  predicate IsLeast(n: nat, s: set<nat>) {
    n in s && forall m :: m in s ==> n <= m
  }

  function Least(s: set<nat>): (n: nat)
    requires s != {}
    ensures IsLeast(n, s)
  {
    LeastExists(s);
    var n: nat :| n in s && IsLeast(n, s);
    n
  }

  lemma {:induction false} LeastExists(s: set<nat>)
    requires s != {}
    ensures exists n: nat :: IsLeast(n, s)
  {
    var x :| x in s;
    var rest := s - {x};
    if rest == {} {
      assert forall m :: m in s ==> m == x || m in rest;
      assert IsLeast(x, s);
    } else {
      LeastExists(rest);
      var y: nat :| IsLeast(y, rest);
      var n := if x < y then x else y;
      forall m | m in s ensures n <= m {
        assert m == x || m in rest;
      }
      assert IsLeast(n, s);
    }
  }

  /** The names of `sorted(kwds.items())`. */
  function SortedNames(names: set<nat>): seq<nat> {
    if names == {} then [] else [Least(names)] + SortedNames(names - {Least(names)})
  }

  lemma {:induction false} SortedNamesAreNames(names: set<nat>)
    ensures |SortedNames(names)| == |names|
    ensures forall n :: n in SortedNames(names) <==> n in names
  {
    if names != {} {
      SortedNamesAreNames(names - {Least(names)});
    }
  }

  function Values(args: seq<Arg>): seq<Obj> {
    seq(|args|, i requires 0 <= i < |args| => args[i].value)
  }

  function Kinds(args: seq<Arg>): seq<Obj> {
    seq(|args|, i requires 0 <= i < |args| => args[i].kind)
  }

  /** The keyword arguments as name, value, name, value, and so on. */
  function Flat(names: seq<nat>, kwds: map<nat, Arg>): seq<Obj>
    requires forall n :: n in names ==> n in kwds
  {
    if names == [] then [] else [Name(names[0]), kwds[names[0]].value] + Flat(names[1..], kwds)
  }

  function KindsOf(names: seq<nat>, kwds: map<nat, Arg>): seq<Obj>
    requires forall n :: n in names ==> n in kwds
  {
    if names == [] then [] else [kwds[names[0]].kind] + KindsOf(names[1..], kwds)
  }

  /** The names of a call's keyword arguments in order. */
  function NamesOf(c: Call): (names: seq<nat>)
    ensures forall n :: n in names ==> n in c.kwds
  {
    SortedNamesAreNames(c.kwds.Keys);
    SortedNames(c.kwds.Keys)
  }

  /** The keyword arguments, behind the mark. */
  function Middle(c: Call): seq<Obj> {
    if c.kwds == map[] then [] else [Mark] + Flat(NamesOf(c), c.kwds)
  }

  /** The types, if they matter. */
  function Back(c: Call, typed: bool): seq<Obj> {
    if typed then Kinds(c.args) + KindsOf(NamesOf(c), c.kwds) else []
  }

  function Items(c: Call, typed: bool): seq<Obj> {
    Values(c.args) + Middle(c) + Back(c, typed)
  }

  /** `_make_key`; `fast` says which types take the shortcut of being their own key. */
  function MakeKey(c: Call, typed: bool, fast: set<Obj>): Key {
    if !typed && c.kwds == map[] && |c.args| == 1 && c.args[0].kind in fast then Bare(c.args[0].value)
    else HashedSeq(Items(c, typed))
  }

  /** The key that the bounded cache uses. */
  function KeyOf(c: Call, typed: bool, fast: set<Obj>): Key {
    if c.kwds != map[] || typed then MakeKey(c, typed, fast) else Tuple(Values(c.args))
  }

  /** The same arguments: equal values under the same names, and with `typed` also of the same types. */
  ghost predicate SameCall(c: Call, d: Call, typed: bool) {
    && Values(c.args) == Values(d.args)
    && c.kwds.Keys == d.kwds.Keys
    && (forall n :: n in c.kwds ==> c.kwds[n].value == d.kwds[n].value)
    && (typed ==> Kinds(c.args) == Kinds(d.args) && forall n :: n in c.kwds ==> c.kwds[n].kind == d.kwds[n].kind)
  }

  // ---- keys are equal exactly for the same calls ---------------------------------------------

  lemma {:induction false} FlatShape(names: seq<nat>, kwds: map<nat, Arg>)
    requires forall n :: n in names ==> n in kwds
    ensures |Flat(names, kwds)| == 2 * |names| && |KindsOf(names, kwds)| == |names|
    ensures forall i :: 0 <= i < |names| ==> Flat(names, kwds)[2 * i] == Name(names[i]) && Flat(names, kwds)[2 * i + 1] == kwds[names[i]].value
    ensures forall i :: 0 <= i < |names| ==> KindsOf(names, kwds)[i] == kwds[names[i]].kind
  {
    if names != [] {
      FlatShape(names[1..], kwds);
      forall i | 0 <= i < |names|
        ensures Flat(names, kwds)[2 * i] == Name(names[i]) && Flat(names, kwds)[2 * i + 1] == kwds[names[i]].value
      {
        if i != 0 {
          assert Flat(names, kwds)[2 * i] == Flat(names[1..], kwds)[2 * (i - 1)];
          assert Flat(names, kwds)[2 * i + 1] == Flat(names[1..], kwds)[2 * (i - 1) + 1];
        }
      }
    }
  }

  /** Equal flattened keyword arguments have the same names with equal values, and types if given. */
  lemma {:induction false} FlatInjective(c: Call, d: Call)
    requires Flat(NamesOf(c), c.kwds) == Flat(NamesOf(d), d.kwds)
    ensures c.kwds.Keys == d.kwds.Keys && NamesOf(c) == NamesOf(d)
    ensures forall n :: n in c.kwds ==> c.kwds[n].value == d.kwds[n].value
    ensures KindsOf(NamesOf(c), c.kwds) == KindsOf(NamesOf(d), d.kwds) ==> forall n :: n in c.kwds ==> c.kwds[n].kind == d.kwds[n].kind
  {
    var names := NamesOf(c);
    FlatShape(names, c.kwds);
    FlatShape(NamesOf(d), d.kwds);
    assert |names| == |NamesOf(d)|;
    forall i | 0 <= i < |names|
      ensures names[i] == NamesOf(d)[i] && c.kwds[names[i]].value == d.kwds[names[i]].value
    {
      assert Flat(names, c.kwds)[2 * i] == Flat(NamesOf(d), d.kwds)[2 * i];
      assert Flat(names, c.kwds)[2 * i + 1] == Flat(NamesOf(d), d.kwds)[2 * i + 1];
    }
    assert names == NamesOf(d);
    SortedNamesAreNames(c.kwds.Keys);
    SortedNamesAreNames(d.kwds.Keys);
    forall n | n in c.kwds
      ensures c.kwds[n].value == d.kwds[n].value
      ensures KindsOf(names, c.kwds) == KindsOf(names, d.kwds) ==> c.kwds[n].kind == d.kwds[n].kind
    {
      var i :| 0 <= i < |names| && names[i] == n;
      assert KindsOf(names, c.kwds)[i] == c.kwds[n].kind && KindsOf(names, d.kwds)[i] == d.kwds[n].kind;
    }
  }

  lemma {:induction false} PartLengths(c: Call, typed: bool)
    ensures |Middle(c)| == if c.kwds == map[] then 0 else 1 + 2 * |c.kwds|
    ensures |Back(c, typed)| == if typed then |c.args| + |c.kwds| else 0
    ensures |KindsOf(NamesOf(c), c.kwds)| == |c.kwds| == |NamesOf(c)|
  {
    SortedNamesAreNames(c.kwds.Keys);
    FlatShape(NamesOf(c), c.kwds);
    assert |c.kwds.Keys| == |c.kwds|;
  }

  /** The mark stands behind the positional arguments if there are keyword arguments, and else nowhere. */
  lemma {:induction false} WhereTheMarkIs(c: Call, typed: bool)
    requires ValidCall(c)
    ensures forall i :: 0 <= i < |c.args| ==> Items(c, typed)[i] != Mark
    ensures c.kwds != map[] ==> |c.args| < |Items(c, typed)| && Items(c, typed)[|c.args|] == Mark
    ensures c.kwds == map[] ==> forall i :: 0 <= i < |Items(c, typed)| ==> Items(c, typed)[i] != Mark
  {
    PartLengths(c, typed);
    SortedNamesAreNames(c.kwds.Keys);
    if c.kwds == map[] {
      assert Middle(c) == [] && KindsOf(NamesOf(c), c.kwds) == [];
      assert Items(c, typed) == Values(c.args) + if typed then Kinds(c.args) else [];
    } else {
      assert Middle(c)[0] == Mark;
    }
  }

  lemma {:induction false} MarkPosition(c: Call, d: Call, typed: bool)
    requires ValidCall(c) && ValidCall(d) && Items(c, typed) == Items(d, typed)
    ensures (c.kwds == map[]) == (d.kwds == map[]) && |c.args| == |d.args| && |c.kwds| == |d.kwds|
  {
    WhereTheMarkIs(c, typed);
    WhereTheMarkIs(d, typed);
    PartLengths(c, typed);
    PartLengths(d, typed);
  }

  lemma {:induction false} Split<T>(a: seq<T>, b: seq<T>, a': seq<T>, b': seq<T>)
    requires a + b == a' + b' && |a| == |a'|
    ensures a == a' && b == b'
  {
    assert a == (a + b)[..|a|] && b == (a + b)[|a|..];
    assert a' == (a' + b')[..|a|] && b' == (a' + b')[|a|..];
  }

  /** Equal items have equal parts. */
  lemma {:induction false} SameParts(c: Call, d: Call, typed: bool)
    requires ValidCall(c) && ValidCall(d) && Items(c, typed) == Items(d, typed)
    ensures Values(c.args) == Values(d.args) && Flat(NamesOf(c), c.kwds) == Flat(NamesOf(d), d.kwds)
    ensures typed ==> Kinds(c.args) == Kinds(d.args) && KindsOf(NamesOf(c), c.kwds) == KindsOf(NamesOf(d), d.kwds)
  {
    MarkPosition(c, d, typed);
    PartLengths(c, typed);
    PartLengths(d, typed);
    Split(Values(c.args) + Middle(c), Back(c, typed), Values(d.args) + Middle(d), Back(d, typed));
    Split(Values(c.args), Middle(c), Values(d.args), Middle(d));
    if c.kwds == map[] {
      assert NamesOf(c) == [] && NamesOf(d) == [];
    } else {
      Split([Mark], Flat(NamesOf(c), c.kwds), [Mark], Flat(NamesOf(d), d.kwds));
    }
    if typed {
      Split(Kinds(c.args), KindsOf(NamesOf(c), c.kwds), Kinds(d.args), KindsOf(NamesOf(d), d.kwds));
    }
  }

  /** Two calls get the same key exactly when they are the same call, so a cached value is never for others. */
  lemma {:induction false} SameKeyIffSameCall(c: Call, d: Call, typed: bool, fast: set<Obj>)
    requires ValidCall(c) && ValidCall(d)
    ensures KeyOf(c, typed, fast) == KeyOf(d, typed, fast) <==> SameCall(c, d, typed)
  {
    if SameCall(c, d, typed) {
      SameCallSameKey(c, d, typed);
    }
    if KeyOf(c, typed, fast) == KeyOf(d, typed, fast) && (c.kwds != map[] || typed) {
      SameParts(c, d, typed);
      FlatInjective(c, d);
    }
  }

  lemma {:induction false} SameCallSameKey(c: Call, d: Call, typed: bool)
    requires SameCall(c, d, typed)
    ensures (c.kwds == map[]) == (d.kwds == map[]) && Items(c, typed) == Items(d, typed)
  {
    assert c.kwds.Keys == d.kwds.Keys;
    var names := NamesOf(c);
    SortedNamesAreNames(c.kwds.Keys);
    FlatShape(names, c.kwds);
    FlatShape(names, d.kwds);
    SameFlat(names, c.kwds, d.kwds);
    assert c.kwds == map[] <==> c.kwds.Keys == {};
    assert d.kwds == map[] <==> d.kwds.Keys == {};
  }

  lemma {:induction false} SameFlat(names: seq<nat>, c: map<nat, Arg>, d: map<nat, Arg>)
    requires c.Keys == d.Keys && forall n :: n in names ==> n in c
    requires forall n :: n in c ==> c[n].value == d[n].value
    ensures Flat(names, c) == Flat(names, d)
    ensures (forall n :: n in c ==> c[n].kind == d[n].kind) ==> KindsOf(names, c) == KindsOf(names, d)
  {
    if names != [] {
      SameFlat(names[1..], c, d);
    }
  }

  /** A value depending only on what distinguishes calls: what `user_function` computes. */
  ghost predicate Deterministic<V(!new)>(f: Call -> V, typed: bool) {
    forall c, d :: ValidCall(c) && ValidCall(d) && SameCall(c, d, typed) ==> f(c) == f(d)
  }
}
