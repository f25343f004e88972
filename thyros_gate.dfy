/**
 * thyros's `Gate`: the same flat registry as scutum's, in an older form. The class is a
 * singleton whose `__init__` empties it again on every construction, policies are registered
 * without their names being recorded, and `allowed`, `denied` and `authorize` call the rule
 * without asking whether the action is known.
 */
module ThyrosGate {
  import opened Host
  import opened Dicts
  import opened Classes
  import opened Registry
  import opened ThyrosPolicy

  /**
   * The `policy(name)` decorator applied to `policy`: TypeError for a class that is not a
   * `Policy`; otherwise every action of the class is registered under `name:action`. The name
   * itself is never recorded, so the policy names are left as they are.
   */
  function WithPolicy(s: GateState, name: string, policy: PolicyClass, obj: Value): (r: Result<GateState>)
    ensures r.Fail? <==> !policy.isPolicy
    ensures r.Fail? ==> r.error == TypeError
    ensures Valid(s) && r.Ok? ==> Valid(r.value) && r.value.policies == s.policies
  {
    if !policy.isPolicy then Fail(TypeError)
    else if name in s.policies then Ok(s)
    else Ok(RegisterEach(s, name, Actions(policy, obj)))
  }

  /**
   * Applying the decorator adds, under `name:action`, exactly the public callables `dir(cls)`
   * finds, inherited ones included, each bound to the shared instance (unless that qualified
   * name already had a rule), and keeps every rule there was.
   */
  lemma WithPolicyExact(s: GateState, name: string, policy: PolicyClass, obj: Value)
    requires Valid(s) && policy.isPolicy && s.policies == {}
    ensures WithPolicy(s, name, policy, obj).Ok?
    ensures var r := WithPolicy(s, name, policy, obj).value;
      var c := policy.cls;
      && r.policies == {}
      && (forall a | a in s.functions :: a in r.functions && r.functions[a] == s.functions[a])
      && (forall k | k in Names(c) && Eligible(k, GetAttr(c, k)) ::
            && Qualify(name, k) in r.functions
            && (Qualify(name, k) !in s.functions ==> r.functions[Qualify(name, k)] == Fn(GetMethod(obj, GetAttr(c, k).code))))
      && (forall a | a in r.functions && a !in s.functions ::
            exists k | k in Names(c) && Eligible(k, GetAttr(c, k)) :: a == Qualify(name, k))
  {
    ActionsExact(policy, obj);
    RegisterEachSpec(s, name, Actions(policy, obj));
  }

  /**
   * With no policy name ever recorded, applying the decorator again under the same name
   * registers the actions again, which first-wins registration makes a no-op.
   */
  lemma WithPolicyTwice(s: GateState, name: string, policy: PolicyClass, obj: Value)
    requires Valid(s) && policy.isPolicy && s.policies == {}
    ensures WithPolicy(s, name, policy, obj).Ok?
    ensures var t := WithPolicy(s, name, policy, obj).value;
      t.policies == {} && WithPolicy(t, name, policy, obj) == Ok(t)
  {
    ActionsExact(policy, obj);
    RegisterEachTwice(s, name, Actions(policy, obj));
  }

  /**
   * `allowed(action, user, *args)`: the rule is looked up directly, so an unknown action raises
   * KeyError; a Response gives its `allowed` flag, any other result is returned as it is.
   */
  function Allowed(host: Semantics, s: GateState, action: string, user: Value, args: seq<Value>): (r: Result<RuleResult>)
    requires Valid(s)
    ensures r.Fail? <==> !Has(s, action)
    ensures r.Fail? ==> r.error == KeyError
    ensures r.Ok? ==> !r.value.Resp? && Truthy(r.value) == Permits(Raw(host, s, action, user, args))
    ensures r.Ok? && !Raw(host, s, action, user, args).Resp? ==> r.value == Raw(host, s, action, user, args)
    ensures r.Ok? && Raw(host, s, action, user, args).Resp? ==> r.value == Bool(Raw(host, s, action, user, args).allowed)
  {
    if action !in s.functions then Fail(KeyError)
    else
      var response := Raw(host, s, action, user, args);
      Ok(if response.Resp? then Bool(response.allowed) else response)
  }

  /**
   * `denied(action, user, *args)` as written: it negates the `allowed` flag of a Response but
   * returns any other result as it is, so for those it agrees with `allowed`.
   */
  function Denied(host: Semantics, s: GateState, action: string, user: Value, args: seq<Value>): (r: Result<RuleResult>)
    requires Valid(s)
    ensures r.Fail? <==> !Has(s, action)
    ensures r.Fail? ==> r.error == KeyError
    ensures r.Ok? ==> !r.value.Resp?
    ensures r.Ok? && Raw(host, s, action, user, args).Resp? ==> r.value == Bool(!Permits(Raw(host, s, action, user, args)))
    ensures r.Ok? && !Raw(host, s, action, user, args).Resp? ==> r.value == Allowed(host, s, action, user, args).value
  {
    if action !in s.functions then Fail(KeyError)
    else
      var response := Raw(host, s, action, user, args);
      Ok(if response.Resp? then Bool(!response.allowed) else response)
  }

  /** A rule that returns `True` is both allowed and denied. */
  lemma DeniedAgreesWithAllowed(host: Semantics, s: GateState, action: string, user: Value, args: seq<Value>)
    requires Valid(s) && Has(s, action) && Raw(host, s, action, user, args) == Bool(true)
    ensures Allowed(host, s, action, user, args) == Ok(Bool(true))
    ensures Denied(host, s, action, user, args) == Ok(Bool(true))
  {
  }

  /** `denied` as evidently intended: `not response.allowed` for a Response, `not response` otherwise. */
  function DeniedIntended(host: Semantics, s: GateState, action: string, user: Value, args: seq<Value>): (r: Result<bool>)
    requires Valid(s)
    ensures r.Fail? <==> !Has(s, action)
    ensures r.Fail? ==> r.error == KeyError
    ensures r.Ok? ==> r.value == !Permits(Raw(host, s, action, user, args))
  {
    if action !in s.functions then Fail(KeyError)
    else
      var response := Raw(host, s, action, user, args);
      Ok(if response.Resp? then !response.allowed else !Truthy(response))
  }

  /** The intended `denied` is the exact negation of `allowed`, and fails where `allowed` fails. */
  lemma DeniedIntendedNegates(host: Semantics, s: GateState, action: string, user: Value, args: seq<Value>)
    requires Valid(s)
    ensures var a, d := Allowed(host, s, action, user, args), DeniedIntended(host, s, action, user, args);
      (a.Fail? && d == Fail(a.error)) || (a.Ok? && d == Ok(!Truthy(a.value)))
  {
  }

  /**
   * `authorize(action, user, *args)`: KeyError for an unknown action; it raises exactly when
   * the rule returns a denying Response (through its `authorize()`) or the boolean `False`.
   * Any other falsy result passes.
   */
  function Authorize(host: Semantics, s: GateState, action: string, user: Value, args: seq<Value>): (r: Result<()>)
    requires Valid(s)
    ensures !Has(s, action) ==> r == Fail(KeyError)
    ensures Has(s, action) ==>
      (r.Ok? <==> Raw(host, s, action, user, args) != Bool(false) && Raw(host, s, action, user, args) != Resp(false))
    ensures Has(s, action) && Raw(host, s, action, user, args) == Resp(false) ==> r == Fail(ResponseDenied)
    ensures Has(s, action) && Raw(host, s, action, user, args) == Bool(false) ==> r == Fail(AuthorizationError)
  {
    if action !in s.functions then Fail(KeyError)
    else
      var response := Raw(host, s, action, user, args);
      var authorized := if response.Resp? then ResponseAuthorize(response.allowed) else Ok(());
      if authorized.Fail? then authorized
      else if response.Bool? && !response.b then Fail(AuthorizationError)
      else Ok(())
  }

  /**
   * `[self.allowed(action, user, *args) for action in actions]`: every action in order; the
   * first unknown action raises and ends the list.
   */
  function AllowedEach(host: Semantics, s: GateState, actions: seq<string>, user: Value, args: seq<Value>): (r: Result<seq<RuleResult>>)
    requires Valid(s)
    ensures r.Fail? <==> exists i | 0 <= i < |actions| :: !Has(s, actions[i])
    ensures r.Fail? ==> r.error == KeyError
    ensures r.Ok? ==> |r.value| == |actions|
    ensures r.Ok? ==> forall i | 0 <= i < |actions| ::
      Allowed(host, s, actions[i], user, args).Ok? && r.value[i] == Allowed(host, s, actions[i], user, args).value
  {
    if actions == [] then Ok([])
    else
      var first := Allowed(host, s, actions[0], user, args);
      if first.Fail? then Fail(first.error)
      else
        var rest := AllowedEach(host, s, actions[1..], user, args);
        assert forall i | 0 < i < |actions| :: actions[i] == actions[1..][i - 1];
        if rest.Fail? then Fail(rest.error) else Ok([first.value] + rest.value)
  }

  /** `any(actions, user, *args)`: true exactly when one of the actions is allowed. */
  function Any(host: Semantics, s: GateState, actions: seq<string>, user: Value, args: seq<Value>): (r: Result<bool>)
    requires Valid(s)
    ensures r.Fail? <==> exists i | 0 <= i < |actions| :: !Has(s, actions[i])
    ensures r.Fail? ==> r.error == KeyError
    ensures r.Ok? ==> (r.value <==> exists i | 0 <= i < |actions| :: Permits(Raw(host, s, actions[i], user, args)))
  {
    var each := AllowedEach(host, s, actions, user, args);
    if each.Fail? then Fail(each.error)
    else Ok(exists i | 0 <= i < |each.value| :: Truthy(each.value[i]))
  }

  /** `none(actions, user, *args)`: `not any(...)`. */
  function None(host: Semantics, s: GateState, actions: seq<string>, user: Value, args: seq<Value>): (r: Result<bool>)
    requires Valid(s)
    ensures r.Fail? <==> exists i | 0 <= i < |actions| :: !Has(s, actions[i])
    ensures r.Fail? ==> r.error == KeyError
    ensures r.Ok? ==> (r.value <==> forall i | 0 <= i < |actions| :: !Permits(Raw(host, s, actions[i], user, args)))
  {
    var a := Any(host, s, actions, user, args);
    if a.Fail? then a else Ok(!a.value)
  }

  /** The gate instance: the three containers `__init__` creates, changed in place by registration. */
  class Gate {
    var actions: set<string>
    var policies: set<string>
    var mapFunctions: map<string, Value>

    function State(): GateState
      reads this
    {
      GateState(actions, policies, mapFunctions)
    }

    ghost predicate Valid()
      reads this
    {
      Registry.Valid(State())
    }

    /** A new instance after `__init__`. */
    constructor()
      ensures State() == Empty && Valid()
    {
      actions, policies, mapFunctions := {}, {}, map[];
    }

    /** `__init__` run again on the shared instance: whatever was registered is dropped. */
    method Init()
      modifies this
      ensures State() == Empty && Valid()
    {
      actions, policies, mapFunctions := {}, {}, map[];
    }

    /** `_register_func(action, func)`. */
    method RegisterFunc(action: string, func: Value) returns (r: Result<()>)
      requires Valid()
      modifies this
      ensures Valid()
      ensures var spec := Register(old(State()), action, func);
        && (r.Fail? <==> spec.Fail?)
        && (spec.Fail? ==> r == Fail(spec.error) && State() == old(State()))
        && (spec.Ok? ==> State() == spec.value)
    {
      if !IsCallable(func) {
        return Fail(TypeError);
      }
      if action !in actions {
        actions := actions + {action};
        mapFunctions := mapFunctions[action := func];
      }
      return Ok(());
    }

    /**
     * `policy(name)(policy)`: the decorator, which returns the class it was given. `obj` stands
     * for the instance that `policy._to_actions()` creates with `cls()`.
     */
    method Policy(name: string, policy: PolicyClass, obj: Value) returns (r: Result<PolicyClass>)
      requires Valid()
      modifies this
      ensures Valid()
      ensures var spec := WithPolicy(old(State()), name, policy, obj);
        && (r.Fail? <==> spec.Fail?)
        && (spec.Fail? ==> r == Fail(spec.error) && State() == old(State()))
        && (spec.Ok? ==> r == Ok(policy) && State() == spec.value)
    {
      if !policy.isPolicy {
        return Fail(TypeError);
      }
      if name !in policies {
        var acts := ToActions(policy, obj);
        ghost var start := State();
        for i := 0 to |acts|
          invariant Valid() && State() == RegisterEach(start, name, acts[..i])
        {
          assert acts[..i + 1][..i] == acts[..i];
          var (action, func) := acts[i];
          var _ := RegisterFunc(Qualify(name, action), func);
        }
        assert acts[..|acts|] == acts;
      }
      return Ok(policy);
    }

    /** `remove(action)`. */
    method Remove(action: string)
      requires Valid()
      modifies this
      ensures Valid()
      ensures State() == Registry.Remove(old(State()), action)
    {
      if action in actions {
        actions := actions - {action};
        mapFunctions := mapFunctions - {action};
      }
    }
  }

  /** The class object `Gate`, holding the class attribute `_instance` that `Singleton` manages. */
  class GateClass {
    var instance: Gate?

    /** Before the first `Gate()`, `_instance` is None. */
    constructor()
      ensures instance == null
    {
      instance := null;
    }

    /**
     * `Gate()`: `Singleton.__new__` creates the instance only the first time and returns the
     * stored one afterwards; `Gate.__init__` then empties it.
     */
    method New() returns (g: Gate)
      modifies this, instance
      ensures instance == g
      ensures old(instance) != null ==> g == old(instance)
      ensures old(instance) == null ==> fresh(g)
      ensures g.State() == Empty && g.Valid()
    {
      if instance == null {
        g := new Gate();
        instance := g;
      } else {
        g := instance;
        g.Init();
      }
    }
  }
}
