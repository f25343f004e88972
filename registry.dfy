/**
 * The state both gates keep, and the registration code they share: `_register_func` and
 * `remove` are written the same way in scutum's `Gate` and in thyros's `Gate`.
 *
 * A gate holds a set of action names (`_actions`), a set of policy names (`_policies`) and a
 * dictionary from action names to rules (`_map_functions`). Rules are registered first-wins,
 * and the actions of a policy registered under `name` are qualified as `name:action`.
 */
module Registry {
  import opened Host
  import opened Dicts

  datatype GateState = GateState(actions: set<string>, policies: set<string>, functions: map<string, Value>)

  /** The state `Gate.__init__` sets up. */
  const Empty: GateState := GateState({}, {}, map[])

  /** What every operation keeps: the actions are the keys of the dictionary, whose rules are callable. */
  predicate Valid(s: GateState) {
    && s.actions == s.functions.Keys
    && forall a | a in s.functions :: IsCallable(s.functions[a])
  }

  /** `has(action)`. */
  predicate Has(s: GateState, action: string) {
    action in s.actions
  }

  /**
   * `_register_func(action, func)`: raises TypeError exactly for a non-callable. Otherwise the
   * state stays valid, the action is known, its rule is the first one ever registered for it,
   * and nothing else changes.
   */
  function Register(s: GateState, action: string, func: Value): (r: Result<GateState>)
    ensures r.Fail? <==> !IsCallable(func)
    ensures r.Fail? ==> r.error == TypeError
    ensures Valid(s) && r.Ok? ==>
      && Valid(r.value) && Has(r.value, action) && r.value.policies == s.policies
      && r.value.functions[action] == (if action in s.functions then s.functions[action] else func)
      && forall a | a != action :: (a in r.value.functions <==> a in s.functions)
           && (a in s.functions ==> r.value.functions[a] == s.functions[a])
  {
    if !IsCallable(func) then Fail(TypeError)
    else if action in s.actions then Ok(s)
    else Ok(s.(actions := s.actions + {action}, functions := s.functions[action := func]))
  }

  /**
   * `remove(action)`: a known action leaves both the set and the dictionary; an unknown one
   * changes nothing. Either way the state stays valid and the rest is kept.
   */
  function Remove(s: GateState, action: string): (r: GateState)
    ensures Valid(s) ==>
      && Valid(r) && !Has(r, action) && r.policies == s.policies
      && (action !in s.actions ==> r == s)
      && forall a | a != action :: (a in r.functions <==> a in s.functions)
           && (a in s.functions ==> r.functions[a] == s.functions[a])
  {
    if action in s.actions then s.(actions := s.actions - {action}, functions := s.functions - {action}) else s
  }

  /** `f"{name}:{action}"`. */
  function Qualify(name: string, action: string): string {
    name + ":" + action
  }

  /**
   * The state after `_register_func(f"{name}:{action}", func)` for each item of `items`, in
   * order: it stays valid, and the policy names and the rules already there are kept.
   */
  function RegisterEach(s: GateState, name: string, items: Dict<Value>): (r: GateState)
    requires forall i | 0 <= i < |items| :: IsCallable(items[i].1)
    ensures Valid(s) ==>
      && Valid(r) && r.policies == s.policies
      && forall a | a in s.functions :: a in r.functions && r.functions[a] == s.functions[a]
  {
    if items == [] then s
    else
      var (action, func) := items[|items| - 1];
      Register(RegisterEach(s, name, items[..|items| - 1]), Qualify(name, action), func).value
  }

  /** What calling the rule registered for `action` with `user` and `args` returns. */
  function Raw(host: Semantics, s: GateState, action: string, user: Value, args: seq<Value>): RuleResult
    requires Valid(s) && action in s.functions
  {
    Invoke(host, s.functions[action].code, [user] + args)
  }

  /** Whether a rule result grants: a Response by its `allowed` flag, anything else by `bool()`. */
  predicate Permits(res: RuleResult) {
    if res.Resp? then res.allowed else Truthy(res)
  }

  /**
   * `check(action, user, *args)`, the same in both gates: ActionNotFound exactly for an unknown
   * action; otherwise one call of its rule, whose Response is returned as it is and whose any
   * other result is turned into the `bool` with the same truth value.
   */
  function Check(host: Semantics, s: GateState, action: string, user: Value, args: seq<Value>): (r: Result<RuleResult>)
    requires Valid(s)
    ensures r.Fail? <==> !Has(s, action)
    ensures r.Fail? ==> r.error == ActionNotFound
    ensures r.Ok? ==> !r.value.Other? && Permits(r.value) == Permits(Raw(host, s, action, user, args))
    ensures r.Ok? && Raw(host, s, action, user, args).Resp? ==> r.value == Raw(host, s, action, user, args)
    ensures r.Ok? && !Raw(host, s, action, user, args).Resp? ==> r.value == Bool(Truthy(Raw(host, s, action, user, args)))
  {
    if action !in s.actions then Fail(ActionNotFound)
    else
      var result := Raw(host, s, action, user, args);
      if result.Resp? then Ok(result) else Ok(Bool(Truthy(result)))
  }

  /** The empty gate is valid and has no action. */
  lemma EmptyValid()
    ensures Valid(Empty) && forall a :: !Has(Empty, a)
  {
  }

  /** `has` reports exactly the actions that have a rule. */
  lemma HasRule(s: GateState, action: string)
    requires Valid(s)
    ensures Has(s, action) <==> action in s.functions
  {
  }

  /** First registration wins: registering the same action again changes nothing. */
  lemma RegisterTwice(s: GateState, action: string, f: Value, g: Value)
    requires Valid(s) && IsCallable(f) && IsCallable(g)
    ensures Register(s, action, f).Ok?
    ensures Register(Register(s, action, f).value, action, g) == Register(s, action, f)
  {
  }

  /** Removing an action that was just registered for the first time restores the state. */
  lemma RemoveUndoesRegister(s: GateState, action: string, func: Value)
    requires Valid(s) && IsCallable(func) && !Has(s, action)
    ensures Remove(Register(s, action, func).value, action) == s
  {
    var r := Register(s, action, func).value;
    assert r.functions - {action} == s.functions;
  }

  /** Different actions of one policy get different qualified names. */
  lemma QualifyInjective(name: string, a: string, b: string)
    requires Qualify(name, a) == Qualify(name, b)
    ensures a == b
  {
    var n := |name| + 1;
    assert a == Qualify(name, a)[n..] && b == Qualify(name, b)[n..];
  }

  /**
   * Registering the items of a policy keeps the state valid and the policy names, keeps every
   * rule already there, adds `name:action` for each item whose qualified name is new, and adds
   * nothing else.
   */
  lemma {:induction false} RegisterEachSpec(s: GateState, name: string, items: Dict<Value>)
    requires Valid(s) && Distinct(items)
    requires forall i | 0 <= i < |items| :: IsCallable(items[i].1)
    ensures var r := RegisterEach(s, name, items);
      && Valid(r) && r.policies == s.policies
      && (forall a | a in s.functions :: a in r.functions && r.functions[a] == s.functions[a])
      && (forall k | k in Keys(items) ::
            && Qualify(name, k) in r.functions
            && (Qualify(name, k) !in s.functions ==> r.functions[Qualify(name, k)] == Get(items, k)))
      && (forall a | a in r.functions && a !in s.functions :: exists k | k in Keys(items) :: a == Qualify(name, k))
    decreases |items|
  {
    if items != [] {
      var front := items[..|items| - 1];
      var (action, func) := items[|items| - 1];
      assert items == Put(front, action, func) by {
        assert action !in Keys(front);
      }
      RegisterEachSpec(s, name, front);
      var t := RegisterEach(s, name, front);
      forall k | k in Keys(front)
        ensures Qualify(name, k) != Qualify(name, action)
      {
        if Qualify(name, k) == Qualify(name, action) {
          QualifyInjective(name, k, action);
        }
      }
    }
  }

  /** Registering a policy's items a second time changes nothing. */
  lemma RegisterEachTwice(s: GateState, name: string, items: Dict<Value>)
    requires Valid(s) && Distinct(items)
    requires forall i | 0 <= i < |items| :: IsCallable(items[i].1)
    ensures RegisterEach(RegisterEach(s, name, items), name, items) == RegisterEach(s, name, items)
  {
    var r := RegisterEach(s, name, items);
    RegisterEachSpec(s, name, items);
    RegisterEachKnown(r, name, items);
  }

  /** Registering items whose qualified names are all known changes nothing. */
  lemma {:induction false} RegisterEachKnown(s: GateState, name: string, items: Dict<Value>)
    requires Valid(s)
    requires forall i | 0 <= i < |items| :: IsCallable(items[i].1)
    requires forall i | 0 <= i < |items| :: Qualify(name, items[i].0) in s.actions
    ensures RegisterEach(s, name, items) == s
    decreases |items|
  {
    if items != [] {
      RegisterEachKnown(s, name, items[..|items| - 1]);
    }
  }
}
