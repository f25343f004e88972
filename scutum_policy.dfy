/**
 * scutum's policy classes: `BasePolicy._to_actions` turns the public callables that a class
 * defines itself into actions, each wrapped so that it is called with one shared instance of
 * the class; the `_method_wrapper` of the base class decides which wrapper is used.
 */
module ScutumPolicy {
  import opened Host
  import opened Dicts
  import opened Classes

  /**
   * Which of scutum's policy classes a class derives from, under single inheritance; a class
   * deriving from both `AsyncPolicy` and `Policy`, or one overriding `_method_wrapper`, has no
   * lineage here.
   */
  datatype Lineage =
    | FromPolicy       // `Policy` or a subclass of it
    | FromAsyncPolicy  // `AsyncPolicy` or a subclass of it
    | FromBasePolicy   // `BasePolicy` itself, or a subclass of neither of the two above
    | Unrelated        // not a policy class at all

  datatype PolicyClass = PolicyClass(cls: Class, lineage: Lineage)

  /** `issubclass(cls, Policy)`. */
  predicate IsPolicy(p: PolicyClass) {
    p.lineage == FromPolicy
  }

  /** `_get_method(obj, target)`: a function that calls `target(obj, *args)`. */
  function GetMethod(obj: Value, target: Callable): (w: Callable)
    ensures forall host: Semantics, args: seq<Value> {:trigger Invoke(host, w, args)} ::
      Invoke(host, w, args) == Invoke(host, target, [obj] + args)
  {
    SyncWrapper(obj, target)
  }

  /**
   * `cls._method_wrapper(obj, target)`: `_get_method` as `BasePolicy` and `Policy` set it,
   * `_get_async_method` as `AsyncPolicy` sets it.
   */
  function MethodWrapper(lineage: Lineage, obj: Value, target: Callable): (w: Callable)
    requires lineage != Unrelated
    ensures w.SyncWrapper? || w.AsyncWrapper?
    ensures w.AsyncWrapper? <==> lineage == FromAsyncPolicy
    ensures w.instance == obj && w.target == target
  {
    if lineage == FromAsyncPolicy then AsyncWrapper(obj, target) else GetMethod(obj, target)
  }

  /**
   * The dictionary `_to_actions` has built after visiting `items`: its keys come from
   * `items`, and every value is a wrapper of the lineage's kind bound to `obj`.
   */
  function ActionsOf(lineage: Lineage, items: Dict<Value>, obj: Value): (acts: Dict<Value>)
    requires lineage != Unrelated
    ensures Keys(acts) <= Keys(items)
    ensures forall name | name in Keys(acts) ::
      && Get(acts, name).Fn?
      && (Get(acts, name).code.SyncWrapper? || Get(acts, name).code.AsyncWrapper?)
      && Get(acts, name).code.instance == obj
      && (Get(acts, name).code.AsyncWrapper? <==> lineage == FromAsyncPolicy)
    ensures forall i | 0 <= i < |acts| :: IsCallable(acts[i].1)
  {
    if items == [] then []
    else
      var acts := ActionsOf(lineage, items[..|items| - 1], obj);
      var (name, value) := items[|items| - 1];
      if Eligible(name, value) then Put(acts, name, Fn(MethodWrapper(lineage, obj, value.code))) else acts
  }

  /** What `cls._to_actions()` returns, where `obj` is the instance that `cls()` creates. */
  function Actions(p: PolicyClass, obj: Value): Dict<Value>
    requires p.lineage != Unrelated
  {
    ActionsOf(p.lineage, p.cls.own, obj)
  }

  /** `BasePolicy._to_actions`: one pass over `cls.__dict__.items()`. */
  method ToActions(p: PolicyClass, obj: Value) returns (actions: Dict<Value>)
    requires p.lineage != Unrelated
    ensures actions == Actions(p, obj)
  {
    actions := [];
    var items := p.cls.own;
    for i := 0 to |items|
      invariant actions == ActionsOf(p.lineage, items[..i], obj)
    {
      assert items[..i + 1][..i] == items[..i];
      var (name, value) := items[i];
      if IsCallable(value) && !Private(name) {
        actions := Put(actions, name, Fn(MethodWrapper(p.lineage, obj, value.code)));
      }
    }
    assert items[..|items|] == items;
  }

  /**
   * The actions are exactly the public callables of the class's own dictionary, in its order,
   * each wrapped with the shared instance.
   */
  lemma ActionsExact(lineage: Lineage, items: Dict<Value>, obj: Value)
    requires lineage != Unrelated && Distinct(items)
    ensures var acts := ActionsOf(lineage, items, obj);
      && Distinct(acts)
      && (forall name :: name in Keys(acts) <==> name in Keys(items) && Eligible(name, Get(items, name)))
      && (forall name | name in Keys(acts) :: Get(acts, name) == Fn(MethodWrapper(lineage, obj, Get(items, name).code)))
  {
    ActionsKeys(lineage, items, obj);
    ActionsValues(lineage, items, obj);
  }

  /** The keys of the actions: the eligible names of the dictionary, each once. */
  lemma {:induction false} ActionsKeys(lineage: Lineage, items: Dict<Value>, obj: Value)
    requires lineage != Unrelated && Distinct(items)
    ensures var acts := ActionsOf(lineage, items, obj);
      && Distinct(acts)
      && (forall name :: name in Keys(acts) <==> name in Keys(items) && Eligible(name, Get(items, name)))
  {
    if items != [] {
      var front := items[..|items| - 1];
      var (name, value) := items[|items| - 1];
      assert items == Put(front, name, value) by {
        assert name !in Keys(front);
      }
      ActionsKeys(lineage, front, obj);
    }
  }

  /** The value of each action: the wrapper around the dictionary's value under its name. */
  lemma {:induction false} ActionsValues(lineage: Lineage, items: Dict<Value>, obj: Value)
    requires lineage != Unrelated && Distinct(items)
    ensures var acts := ActionsOf(lineage, items, obj);
      forall name | name in Keys(acts) ::
        name in Keys(items) && Eligible(name, Get(items, name)) && Get(acts, name) == Fn(MethodWrapper(lineage, obj, Get(items, name).code))
  {
    if items != [] {
      var front := items[..|items| - 1];
      var (name, value) := items[|items| - 1];
      assert items == Put(front, name, value) by {
        assert name !in Keys(front);
      }
      ActionsValues(lineage, front, obj);
    }
  }

  /** Only the class's own dictionary counts: an inherited member is never an action. */
  lemma InheritedExcluded(p: PolicyClass, obj: Value, name: string)
    requires p.lineage != Unrelated && Distinct(p.cls.own)
    requires name !in Keys(p.cls.own)
    ensures name !in Keys(Actions(p, obj))
  {
    ActionsExact(p.lineage, p.cls.own, obj);
  }

  /**
   * For a `Policy` subclass every action is a synchronous wrapper: calling it with a user and
   * arguments calls the member with the instance, the user and the arguments.
   */
  lemma PolicyActionsForward(p: PolicyClass, obj: Value, name: string, host: Semantics, user: Value, args: seq<Value>)
    requires IsPolicy(p) && Distinct(p.cls.own)
    requires name in Keys(Actions(p, obj))
    ensures name in Keys(p.cls.own) && Get(p.cls.own, name).Fn?
    ensures Get(Actions(p, obj), name).code.SyncWrapper?
    ensures Invoke(host, Get(Actions(p, obj), name).code, [user] + args)
         == Invoke(host, Get(p.cls.own, name).code, [obj, user] + args)
  {
    ActionsExact(p.lineage, p.cls.own, obj);
    assert [obj] + ([user] + args) == [obj, user] + args;
  }
}
