/**
 * Python classes as the policy helpers see them through reflection: a class's own `__dict__`,
 * the `__dict__`s of its bases in method resolution order, `getattr(cls, name)` and `dir(cls)`.
 *
 * The attributes of `object` are not represented: they all begin with `_`, and names that
 * begin with `_` are never turned into actions.
 */
module Classes {
  import opened Host
  import opened Dicts

  /** A class: its own `__dict__`, then the `__dict__` of each base in resolution order. */
  datatype Class = Class(own: Dict<Value>, bases: seq<Dict<Value>>)

  /** The names defined by the dictionaries of `bases`. */
  function BaseNames(bases: seq<Dict<Value>>): set<string>
  {
    if bases == [] then {} else BaseNames(bases[..|bases| - 1]) + Keys(bases[|bases| - 1])
  }

  /** The names `getattr(cls, name)` finds: defined by the class or by one of its bases. */
  function Names(c: Class): set<string> {
    Keys(c.own) + BaseNames(c.bases)
  }

  /** The attribute found first along the bases. */
  function BaseAttr(bases: seq<Dict<Value>>, name: string): Value
    requires name in BaseNames(bases)
  {
    var front := bases[..|bases| - 1];
    if name in BaseNames(front) then BaseAttr(front, name) else Get(bases[|bases| - 1], name)
  }

  /** `getattr(cls, name)`: the class's own attribute, else the first base that defines it. */
  function GetAttr(c: Class, name: string): Value
    requires name in Names(c)
  {
    if name in Keys(c.own) then Get(c.own, name) else BaseAttr(c.bases, name)
  }

  /** `name.startswith("_")`. */
  predicate Private(name: string) {
    |name| > 0 && name[0] == '_'
  }

  /** The test both `_to_actions` helpers apply: `callable(value) and not name.startswith("_")`. */
  predicate Eligible(name: string, value: Value) {
    IsCallable(value) && !Private(name)
  }

  /** Python's `a < b` on strings: code point by code point, a proper prefix first. */
  predicate Less(a: string, b: string)
    decreases |a|
  {
    if a == [] then b != []
    else if b == [] then false
    else if a[0] == b[0] then Less(a[1..], b[1..])
    else a[0] < b[0]
  }

  predicate Sorted(xs: seq<string>) {
    forall i, j | 0 <= i < j < |xs| :: Less(xs[i], xs[j])
  }

  /** `Less` is a strict order. */
  lemma {:induction false} LessIrreflexive(a: string)
    ensures !Less(a, a)
    decreases |a|
  {
    if a != [] {
      LessIrreflexive(a[1..]);
    }
  }

  lemma {:induction false} LessTransitive(a: string, b: string, c: string)
    requires Less(a, b) && Less(b, c)
    ensures Less(a, c)
    decreases |a|
  {
    if a != [] && a[0] == b[0] && b[0] == c[0] {
      LessTransitive(a[1..], b[1..], c[1..]);
    }
  }

  /** Any two different strings are ordered one way or the other. */
  lemma {:induction false} LessTotal(a: string, b: string)
    requires a != b
    ensures Less(a, b) || Less(b, a)
    decreases |a|
  {
    if a != [] && b != [] && a[0] == b[0] {
      assert a == [a[0]] + a[1..] && b == [b[0]] + b[1..];
      LessTotal(a[1..], b[1..]);
    }
  }

  /** `n` placed into a sorted list of distinct names, unless it is already there. */
  function Insert(xs: seq<string>, n: string): (ys: seq<string>)
    requires Sorted(xs)
    ensures Sorted(ys)
    ensures forall m :: m in ys <==> m in xs || m == n
  {
    if xs == [] then [n]
    else if n == xs[0] then xs
    else if Less(n, xs[0]) then
      assert forall j | 0 < j < |xs| :: Less(n, xs[j]) by {
        forall j | 0 < j < |xs|
          ensures Less(n, xs[j])
        {
          LessTransitive(n, xs[0], xs[j]);
        }
      }
      [n] + xs
    else
      var rest := Insert(xs[1..], n);
      LessTotal(n, xs[0]);
      assert forall j | 0 <= j < |rest| :: Less(xs[0], rest[j]) by {
        forall j | 0 <= j < |rest|
          ensures Less(xs[0], rest[j])
        {
          assert rest[j] in xs[1..] || rest[j] == n;
        }
      }
      [xs[0]] + rest
  }

  /** The names of `names` sorted, each once. */
  function SortedNames(names: seq<string>): (ys: seq<string>)
    ensures Sorted(ys)
    ensures forall m :: m in ys <==> m in names
  {
    if names == [] then [] else Insert(SortedNames(names[..|names| - 1]), names[|names| - 1])
  }

  /** The keys of the class's own dictionary, then those of each base, in resolution order. */
  function AllKeys(c: Class): seq<string> {
    KeyList(c.own) + BaseKeyList(c.bases)
  }

  /** The keys of `d` in order. */
  function KeyList(d: Dict<Value>): (ks: seq<string>)
    ensures |ks| == |d| && forall i | 0 <= i < |d| :: ks[i] == d[i].0
    ensures forall m :: m in ks <==> m in Keys(d)
  {
    if d == [] then [] else KeyList(d[..|d| - 1]) + [d[|d| - 1].0]
  }

  function BaseKeyList(bases: seq<Dict<Value>>): (ks: seq<string>)
    ensures forall m :: m in ks <==> m in BaseNames(bases)
  {
    if bases == [] then []
    else
      var last := bases[|bases| - 1];
      BaseKeyList(bases[..|bases| - 1]) + KeyList(last)
  }

  /** `dir(cls)`: every attribute name of the class and its bases, once each, sorted. */
  function Dir(c: Class): (names: seq<string>)
    ensures Sorted(names)
    ensures forall m :: m in names <==> m in Names(c)
  {
    SortedNames(AllKeys(c))
  }

  /** A name above every name of a sorted list can go after them. */
  lemma SortedAppend(xs: seq<string>, n: string)
    requires Sorted(xs) && forall i | 0 <= i < |xs| :: Less(xs[i], n)
    ensures Sorted(xs + [n])
  {
    var ys := xs + [n];
    assert forall i | 0 <= i < |xs| :: ys[i] == xs[i];
  }

  /** A sorted list holds each name once. */
  lemma SortedDistinct(xs: seq<string>)
    requires Sorted(xs)
    ensures forall i, j | 0 <= i < j < |xs| :: xs[i] != xs[j]
  {
    forall i, j | 0 <= i < j < |xs|
      ensures xs[i] != xs[j]
    {
      LessIrreflexive(xs[i]);
    }
  }
}
