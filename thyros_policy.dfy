/**
 * thyros's policy classes: `Policy._to_actions` looks at every name `dir(cls)` lists, inherited
 * ones included, and turns the public callables among them into actions bound to one shared
 * instance; the base `Policy` allows five default actions.
 */
module ThyrosPolicy {
  import opened Host
  import opened Dicts
  import opened Classes

  /**
   * A class, and whether `issubclass(cls, Policy)` holds for it. The flag is free: the model
   * does not tie it to the class's bases, so it also admits classes that claim to derive from
   * `Policy` without inheriting its default members.
   */
  datatype PolicyClass = PolicyClass(cls: Class, isPolicy: bool)

  /** The public members of the base `Policy`, in the order the class body defines them. */
  const Defaults: Dict<Value> := [
    ("view", Fn(DefaultAction)),
    ("view_many", Fn(DefaultAction)),
    ("create", Fn(DefaultAction)),
    ("update", Fn(DefaultAction)),
    ("delete", Fn(DefaultAction))
  ]

  /** The names of the default actions, sorted. */
  const DefaultNames: seq<string> := ["create", "delete", "update", "view", "view_many"]

  /** thyros's `Policy` itself. */
  const Base: PolicyClass := PolicyClass(Class(Defaults, []), true)

  /** `_get_method(obj, target)`: a function that calls `target(obj, *args)`. */
  function GetMethod(obj: Value, target: Callable): (w: Callable)
    ensures forall host: Semantics, args: seq<Value> {:trigger Invoke(host, w, args)} ::
      Invoke(host, w, args) == Invoke(host, target, [obj] + args)
  {
    SyncWrapper(obj, target)
  }

  /**
   * The dictionary `_to_actions` has built after visiting `names`: its keys come from `names`
   * and every value is a wrapper bound to `obj`.
   */
  function ActionsOf(c: Class, names: seq<string>, obj: Value): (acts: Dict<Value>)
    requires forall n | n in names :: n in Names(c)
    ensures forall n | n in Keys(acts) :: n in names
    ensures forall n | n in Keys(acts) :: Get(acts, n).Fn? && Get(acts, n).code.SyncWrapper? && Get(acts, n).code.instance == obj
    ensures forall i | 0 <= i < |acts| :: IsCallable(acts[i].1)
  {
    if names == [] then []
    else
      var acts := ActionsOf(c, names[..|names| - 1], obj);
      var name := names[|names| - 1];
      var value := GetAttr(c, name);
      if Eligible(name, value) then Put(acts, name, Fn(GetMethod(obj, value.code))) else acts
  }

  /** What `cls._to_actions()` returns, where `obj` is the instance that `cls()` creates. */
  function Actions(p: PolicyClass, obj: Value): Dict<Value>
    requires p.isPolicy
  {
    ActionsOf(p.cls, Dir(p.cls), obj)
  }

  /** `Policy._to_actions`: one pass over `dir(cls)`, looking each name up with `getattr`. */
  method ToActions(p: PolicyClass, obj: Value) returns (actions: Dict<Value>)
    requires p.isPolicy
    ensures actions == Actions(p, obj)
  {
    actions := [];
    var names := Dir(p.cls);
    for i := 0 to |names|
      invariant actions == ActionsOf(p.cls, names[..i], obj)
    {
      assert names[..i + 1][..i] == names[..i];
      var name := names[i];
      var value := GetAttr(p.cls, name);
      if IsCallable(value) && !Private(name) {
        actions := Put(actions, name, Fn(GetMethod(obj, value.code)));
      }
    }
    assert names[..|names|] == names;
  }

  /**
   * Visiting names in sorted order appends the public callables among them, in that same
   * order.
   */
  lemma {:induction false} ActionsInOrder(c: Class, names: seq<string>, obj: Value)
    requires forall n | n in names :: n in Names(c)
    requires Sorted(names)
    ensures var acts := ActionsOf(c, names, obj);
      && Distinct(acts)
      && Sorted(KeyList(acts))
      && (forall n :: n in Keys(acts) <==> n in names && Eligible(n, GetAttr(c, n)))
  {
    if names != [] {
      var front, name := names[..|names| - 1], names[|names| - 1];
      assert Sorted(front);
      ActionsInOrder(c, front, obj);
      var before := ActionsOf(c, front, obj);
      assert names == front + [name];
      assert forall n :: n in names <==> n in front || n == name;
      if Eligible(name, GetAttr(c, name)) {
        assert forall n | n in front :: Less(n, name);
        LessIrreflexive(name);
        var acts := before + [(name, Fn(GetMethod(obj, GetAttr(c, name).code)))];
        assert ActionsOf(c, names, obj) == acts;
        var keys := KeyList(before);
        forall i | 0 <= i < |keys|
          ensures Less(keys[i], name)
        {
          assert keys[i] in Keys(before);
        }
        SortedAppend(keys, name);
        assert KeyList(acts) == keys + [name];
      }
    }
  }

  /** Each action is the wrapper around what `getattr` finds under its name. */
  lemma {:induction false} ActionsValues(c: Class, names: seq<string>, obj: Value)
    requires forall n | n in names :: n in Names(c)
    ensures var acts := ActionsOf(c, names, obj);
      forall n | n in Keys(acts) :: n in names && Eligible(n, GetAttr(c, n)) && Get(acts, n) == Fn(GetMethod(obj, GetAttr(c, n).code))
  {
    if names != [] {
      ActionsValues(c, names[..|names| - 1], obj);
    }
  }

  /**
   * The actions are exactly the public callables among all names `dir(cls)` lists, those the
   * class inherits included, each wrapped around what `getattr` finds; they come in sorted order.
   */
  lemma ActionsExact(p: PolicyClass, obj: Value)
    requires p.isPolicy
    ensures var acts := Actions(p, obj);
      && Distinct(acts)
      && (forall n :: n in Keys(acts) <==> n in Names(p.cls) && Eligible(n, GetAttr(p.cls, n)))
      && (forall n | n in Keys(acts) :: Get(acts, n) == Fn(GetMethod(obj, GetAttr(p.cls, n).code)))
      && Sorted(KeyList(acts))
  {
    ActionsInOrder(p.cls, Dir(p.cls), obj);
    ActionsValues(p.cls, Dir(p.cls), obj);
  }

  /** An inherited public callable is an action, bound like the class's own members. */
  lemma InheritedIncluded(p: PolicyClass, obj: Value, name: string)
    requires p.isPolicy
    requires name in BaseNames(p.cls.bases) && Eligible(name, GetAttr(p.cls, name))
    ensures name in Keys(Actions(p, obj))
  {
    ActionsExact(p, obj);
  }

  /** The base `Policy` has exactly the actions create, delete, update, view and view_many, in that order. */
  lemma BaseActions(obj: Value)
    ensures |Actions(Base, obj)| == |DefaultNames|
    ensures forall i | 0 <= i < |DefaultNames| :: Actions(Base, obj)[i] == (DefaultNames[i], Fn(SyncWrapper(obj, DefaultAction)))
  {
    var sorted := DefaultNames;
    assert Keys(Defaults) == {"view", "view_many", "create", "update", "delete"} by {
      assert Defaults[0].0 == "view" && Defaults[1].0 == "view_many" && Defaults[2].0 == "create";
      assert Defaults[3].0 == "update" && Defaults[4].0 == "delete";
    }
    assert Sorted(sorted) by {
      assert Less(sorted[0], sorted[1]) && Less(sorted[1], sorted[2]) && Less(sorted[2], sorted[3]) && Less(sorted[3], sorted[4]);
      forall i, j | 0 <= i < j < 5
        ensures Less(sorted[i], sorted[j])
      {
        LessChain(sorted, i, j);
      }
    }
    DefaultMembers();
    assert forall n | n in Keys(Defaults) :: !Private(n);
    UniformActions(Base, obj, sorted, DefaultAction);

  }

  /**
   * A policy class whose attributes are all public and all the same callable `target` has one
   * action per attribute, in sorted order, each wrapping `target`.
   */
  lemma UniformActions(p: PolicyClass, obj: Value, names: seq<string>, target: Callable)
    requires p.isPolicy && Sorted(names)
    requires forall m :: m in Names(p.cls) <==> m in names
    requires forall n | n in Names(p.cls) :: !Private(n) && GetAttr(p.cls, n) == Fn(target)
    ensures |Actions(p, obj)| == |names|
    ensures forall i | 0 <= i < |names| :: Actions(p, obj)[i] == (names[i], Fn(SyncWrapper(obj, target)))
  {
    ActionsExact(p, obj);
    var acts := Actions(p, obj);
    SortedUnique(KeyList(acts), names);
    forall i | 0 <= i < |acts|
      ensures acts[i] == (names[i], Fn(SyncWrapper(obj, target)))
    {
      GetAt(acts, i);
    }
  }

  /** Every member of the base `Policy` is a default action. */
  lemma DefaultMembers()
    ensures forall n | n in Names(Base.cls) :: GetAttr(Base.cls, n) == Fn(DefaultAction)
  {
    assert forall i | 0 <= i < |Defaults| :: Defaults[i].1 == Fn(DefaultAction);
  }

  /** Adjacent steps of a chain of `Less` give `Less` between any two of its places. */
  lemma {:induction false} LessChain(xs: seq<string>, i: nat, j: nat)
    requires forall k | 0 <= k < |xs| - 1 :: Less(xs[k], xs[k + 1])
    requires i < j < |xs|
    ensures Less(xs[i], xs[j])
    decreases j - i
  {
    if i + 1 < j {
      LessChain(xs, i + 1, j);
      LessTransitive(xs[i], xs[i + 1], xs[j]);
    }
  }

  /** Two sorted lists with the same elements are equal. */
  lemma {:induction false} SortedUnique(xs: seq<string>, ys: seq<string>)
    requires Sorted(xs) && Sorted(ys)
    requires forall m :: m in xs <==> m in ys
    ensures xs == ys
    decreases |xs|
  {
    if xs != [] {
      assert xs[0] in ys;
    }
    if ys != [] {
      assert ys[0] in xs;
    }
    if xs != [] && ys != [] {
      SortedHead(xs);
      SortedHead(ys);
      LessAsymmetric(xs[0], ys[0]);
      assert xs[0] == ys[0];
      SortedUnique(xs[1..], ys[1..]);
    }
  }

  /** The first element of a sorted list is below all the others, which are all different from it. */
  lemma SortedHead(xs: seq<string>)
    requires Sorted(xs) && xs != []
    ensures forall m :: m in xs[1..] <==> m in xs && m != xs[0]
    ensures forall m | m in xs && m != xs[0] :: Less(xs[0], m)
  {
    LessIrreflexive(xs[0]);
    assert xs == [xs[0]] + xs[1..];
  }

  lemma LessAsymmetric(a: string, b: string)
    ensures !(Less(a, b) && Less(b, a))
  {
    if Less(a, b) && Less(b, a) {
      LessTransitive(a, b, a);
      LessIrreflexive(a);
    }
  }

  /** Each default action returns `True`, whatever the user and the arguments. */
  lemma DefaultsAllow(obj: Value, host: Semantics, user: Value, args: seq<Value>)
    ensures forall n | n in Keys(Actions(Base, obj)) :: Invoke(host, Get(Actions(Base, obj), n).code, [user] + args) == Bool(true)
  {
    ActionsExact(Base, obj);
    DefaultMembers();
  }
}
