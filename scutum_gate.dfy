/**
 * scutum's `Gate`: a flat registry of named rules with first-wins registration, policies
 * registered under `name:action`, and queries that normalise what a rule returns.
 *
 * The queries only read the state and are functions of it; the registration methods of the
 * `Gate` class change the state and are proved against the functions of `Registry` and
 * `WithPolicy` below.
 */
module ScutumGate {
  import opened Host
  import opened Dicts
  import opened Classes
  import opened Registry
  import opened ScutumPolicy

  /**
   * `_register_policy(name, policy)`: TypeError for a class that is not a `Policy`; a name
   * registered before changes nothing; otherwise every action of the class is registered under
   * `name:action` and the name is added to the policies.
   */
  function WithPolicy(s: GateState, name: string, policy: PolicyClass, obj: Value): (r: Result<GateState>)
    ensures r.Fail? <==> !IsPolicy(policy)
    ensures r.Fail? ==> r.error == TypeError
    ensures IsPolicy(policy) && name in s.policies ==> r == Ok(s)
    ensures Valid(s) && r.Ok? ==> Valid(r.value) && r.value.policies == s.policies + {name}
  {
    if !IsPolicy(policy) then Fail(TypeError)
    else if name in s.policies then Ok(s)
    else
      var t := RegisterEach(s, name, Actions(policy, obj));
      Ok(t.(policies := t.policies + {name}))
  }

  /**
   * A new policy name adds, under `name:action`, exactly the public callables the class itself
   * defines, each bound to the shared instance (unless that qualified name already had a rule),
   * and keeps every rule there was.
   */
  lemma WithPolicyExact(s: GateState, name: string, policy: PolicyClass, obj: Value)
    requires Valid(s) && IsPolicy(policy) && Distinct(policy.cls.own) && name !in s.policies
    ensures WithPolicy(s, name, policy, obj).Ok?
    ensures var r := WithPolicy(s, name, policy, obj).value;
      var own := policy.cls.own;
      && (forall a | a in s.functions :: a in r.functions && r.functions[a] == s.functions[a])
      && (forall k | k in Keys(own) && Eligible(k, Get(own, k)) ::
            && Qualify(name, k) in r.functions
            && (Qualify(name, k) !in s.functions ==> r.functions[Qualify(name, k)] == Fn(GetMethod(obj, Get(own, k).code))))
      && (forall a | a in r.functions && a !in s.functions ::
            exists k | k in Keys(own) && Eligible(k, Get(own, k)) :: a == Qualify(name, k))
  {
    var acts := Actions(policy, obj);
    ActionsExact(policy.lineage, policy.cls.own, obj);
    RegisterEachSpec(s, name, acts);
  }

  /** `allowed(action, user, *args)`: the verdict of one `check`. */
  function Allowed(host: Semantics, s: GateState, action: string, user: Value, args: seq<Value>): (r: Result<bool>)
    requires Valid(s)
    ensures r.Fail? <==> !Has(s, action)
    ensures r.Fail? ==> r.error == ActionNotFound
    ensures r.Ok? ==> r.value == Permits(Raw(host, s, action, user, args))
  {
    var c := Check(host, s, action, user, args);
    if c.Fail? then Fail(c.error)
    else if c.value.Resp? then Ok(c.value.allowed)
    else Ok(c.value.b)
  }

  /** `denied(action, user, *args)`: the opposite verdict of one `check`. */
  function Denied(host: Semantics, s: GateState, action: string, user: Value, args: seq<Value>): (r: Result<bool>)
    requires Valid(s)
    ensures r.Fail? <==> !Has(s, action)
    ensures r.Fail? ==> r.error == ActionNotFound
    ensures r.Ok? ==> r.value == !Permits(Raw(host, s, action, user, args))
  {
    var c := Check(host, s, action, user, args);
    if c.Fail? then Fail(c.error)
    else if c.value.Resp? then Ok(!c.value.allowed)
    else Ok(!c.value.b)
  }

  /**
   * `authorize(action, user, *args)`: passes exactly when the rule grants; a denying Response
   * raises through its own `authorize()`, a false result raises AuthorizationException.
   */
  function Authorize(host: Semantics, s: GateState, action: string, user: Value, args: seq<Value>): (r: Result<()>)
    requires Valid(s)
    ensures r.Ok? <==> Has(s, action) && Permits(Raw(host, s, action, user, args))
    ensures !Has(s, action) ==> r == Fail(ActionNotFound)
    ensures Has(s, action) && !Permits(Raw(host, s, action, user, args)) ==>
      r == Fail(if Raw(host, s, action, user, args).Resp? then ResponseDenied else AuthorizationError)
  {
    var c := Check(host, s, action, user, args);
    if c.Fail? then Fail(c.error)
    else
      var response := c.value;
      var authorized := if response.Resp? then ResponseAuthorize(response.allowed) else Ok(());
      if authorized.Fail? then authorized
      else if response.Bool? && !response.b then Fail(AuthorizationError)
      else Ok(())
  }

  /**
   * `[self.allowed(action, user, *args) for action in actions]`: every action in order; the
   * first unknown action raises and ends the list.
   */
  function AllowedEach(host: Semantics, s: GateState, actions: seq<string>, user: Value, args: seq<Value>): (r: Result<seq<bool>>)
    requires Valid(s)
    ensures r.Fail? <==> exists i | 0 <= i < |actions| :: !Has(s, actions[i])
    ensures r.Fail? ==> r.error == ActionNotFound
    ensures r.Ok? ==> |r.value| == |actions|
    ensures r.Ok? ==> forall i | 0 <= i < |actions| :: r.value[i] == Permits(Raw(host, s, actions[i], user, args))
  {
    if actions == [] then Ok([])
    else
      var first := Allowed(host, s, actions[0], user, args);
      if first.Fail? then Fail(first.error)
      else
        var rest := AllowedEach(host, s, actions[1..], user, args);
        assert forall i | 0 < i < |actions| :: actions[i] == actions[1..][i - 1];
        if rest.Fail? then Fail(rest.error) else Ok([first.value] + rest.value)
  }

  /** `any(actions, user, *args)`: true exactly when one of the actions is allowed. */
  function Any(host: Semantics, s: GateState, actions: seq<string>, user: Value, args: seq<Value>): (r: Result<bool>)
    requires Valid(s)
    ensures r.Fail? <==> exists i | 0 <= i < |actions| :: !Has(s, actions[i])
    ensures r.Fail? ==> r.error == ActionNotFound
    ensures r.Ok? ==> (r.value <==> exists i | 0 <= i < |actions| :: Permits(Raw(host, s, actions[i], user, args)))
  {
    var each := AllowedEach(host, s, actions, user, args);
    if each.Fail? then Fail(each.error)
    else Ok(exists i | 0 <= i < |each.value| :: each.value[i])
  }

  /** `none(actions, user, *args)`: `not any(...)`. */
  function None(host: Semantics, s: GateState, actions: seq<string>, user: Value, args: seq<Value>): (r: Result<bool>)
    requires Valid(s)
    ensures r.Fail? <==> exists i | 0 <= i < |actions| :: !Has(s, actions[i])
    ensures r.Fail? ==> r.error == ActionNotFound
    ensures r.Ok? ==> (r.value <==> forall i | 0 <= i < |actions| :: !Permits(Raw(host, s, actions[i], user, args)))
  {
    var a := Any(host, s, actions, user, args);
    if a.Fail? then a else Ok(!a.value)
  }

  /** `denied` is the exact negation of `allowed`, and both fail alike. */
  lemma DeniedNegatesAllowed(host: Semantics, s: GateState, action: string, user: Value, args: seq<Value>)
    requires Valid(s)
    ensures var a, d := Allowed(host, s, action, user, args), Denied(host, s, action, user, args);
      (a.Fail? && d == a) || (a.Ok? && d == Ok(!a.value))
  {
  }

  /** `authorize` passes exactly when `allowed` is true, and raises what `allowed` raises. */
  lemma AuthorizeIffAllowed(host: Semantics, s: GateState, action: string, user: Value, args: seq<Value>)
    requires Valid(s)
    ensures Authorize(host, s, action, user, args).Ok? <==> Allowed(host, s, action, user, args) == Ok(true)
    ensures Allowed(host, s, action, user, args).Fail? ==> Authorize(host, s, action, user, args) == Fail(ActionNotFound)
  {
  }

  /**
   * `any` does not stop at the first allowed action: an unknown action later in the list
   * still raises.
   */
  lemma AnyNoShortCircuit(host: Semantics, s: GateState, granted: string, unknown: string, user: Value, args: seq<Value>)
    requires Valid(s) && Allowed(host, s, granted, user, args) == Ok(true) && !Has(s, unknown)
    ensures Any(host, s, [granted, unknown], user, args) == Fail(ActionNotFound)
  {
    assert !Has(s, [granted, unknown][1]);
  }

  /** Registering a policy a second time under the same name changes nothing. */
  lemma WithPolicyTwice(s: GateState, name: string, policy: PolicyClass, obj: Value, obj2: Value)
    requires Valid(s) && IsPolicy(policy)
    ensures WithPolicy(s, name, policy, obj).Ok?
    ensures var t := WithPolicy(s, name, policy, obj).value;
      WithPolicy(t, name, policy, obj2) == Ok(t)
  {
  }

  /** The gate: the three containers `__init__` creates, changed in place by registration. */
  class Gate {
    var actions: set<string>
    var policies: set<string>
    var mapFunctions: map<string, Value>

    function State(): GateState
      reads this
    {
      GateState(actions, policies, mapFunctions)
    }

    ghost predicate Valid()
      reads this
    {
      Registry.Valid(State())
    }

    /** `Gate()`: an empty registry. */
    constructor()
      ensures State() == Empty && Valid()
    {
      actions, policies, mapFunctions := {}, {}, map[];
    }

    /** `_register_func(action, func)`. */
    method RegisterFunc(action: string, func: Value) returns (r: Result<()>)
      requires Valid()
      modifies this
      ensures Valid()
      ensures var spec := Register(old(State()), action, func);
        && (r.Fail? <==> spec.Fail?)
        && (spec.Fail? ==> r == Fail(spec.error) && State() == old(State()))
        && (spec.Ok? ==> State() == spec.value)
    {
      if !IsCallable(func) {
        return Fail(TypeError);
      }
      if action !in actions {
        actions := actions + {action};
        mapFunctions := mapFunctions[action := func];
      }
      return Ok(());
    }

    /** `add_action(action, func)`: the same as `_register_func`. */
    method AddAction(action: string, func: Value) returns (r: Result<()>)
      requires Valid()
      modifies this
      ensures Valid()
      ensures var spec := Register(old(State()), action, func);
        && (r.Fail? <==> spec.Fail?)
        && (spec.Fail? ==> r == Fail(spec.error) && State() == old(State()))
        && (spec.Ok? ==> State() == spec.value)
    {
      r := RegisterFunc(action, func);
    }

    /**
     * `_register_policy(name, policy)`, where `obj` stands for the instance that
     * `policy._to_actions()` creates with `cls()`.
     */
    method RegisterPolicy(name: string, policy: PolicyClass, obj: Value) returns (r: Result<()>)
      requires Valid()
      modifies this
      ensures Valid()
      ensures var spec := WithPolicy(old(State()), name, policy, obj);
        && (r.Fail? <==> spec.Fail?)
        && (spec.Fail? ==> r == Fail(spec.error) && State() == old(State()))
        && (spec.Ok? ==> State() == spec.value)
    {
      if !IsPolicy(policy) {
        return Fail(TypeError);
      }
      if name in policies {
        return Ok(());
      }
      var acts := ToActions(policy, obj);
      ghost var start := State();
      for i := 0 to |acts|
        invariant Valid() && State() == RegisterEach(start, name, acts[..i])
      {
        assert acts[..i + 1][..i] == acts[..i];
        var (action, func) := acts[i];
        var _ := RegisterFunc(Qualify(name, action), func);
      }
      assert acts[..|acts|] == acts;
      policies := policies + {name};
      return Ok(());
    }

    /** `add_policy(name, policy)`: the same as `_register_policy`. */
    method AddPolicy(name: string, policy: PolicyClass, obj: Value) returns (r: Result<()>)
      requires Valid()
      modifies this
      ensures Valid()
      ensures var spec := WithPolicy(old(State()), name, policy, obj);
        && (r.Fail? <==> spec.Fail?)
        && (spec.Fail? ==> r == Fail(spec.error) && State() == old(State()))
        && (spec.Ok? ==> State() == spec.value)
    {
      r := RegisterPolicy(name, policy, obj);
    }

    /** `remove(action)`. */
    method Remove(action: string)
      requires Valid()
      modifies this
      ensures Valid()
      ensures State() == Registry.Remove(old(State()), action)
    {
      if action in actions {
        actions := actions - {action};
        mapFunctions := mapFunctions - {action};
      }
    }
  }
}
