# Scope and gate registries of scutum and thyros, in Dafny

This project models the rule registries of two related Python authorization libraries,
`scutum` and its older sibling `thyros`, and proves properties of the model.

- **`scutum.Scope`** is a tree of scopes.
  - Each scope holds a dictionary of rules and a dictionary of child scopes.
  - Colon-separated paths such as `billing:invoices:view` name a scope by all their segments
    but the last, and a leaf by the last segment.
  - It is modelled as the class `ScopeRegistry.Scope`, whose methods update the dictionaries in
    place and are proved against the functions of `ScopeTree`. `ScopeTree` holds the value of a
    scope as a tree, together with the path lemmas.
- **The two `Gate` classes** are flat registries: a set of action names, a set of policy names,
  and a dictionary from action names to rules.
  - Registration is first-wins.
  - A policy class registered under `name` contributes its public callables as `name:action`.
  - The queries (`check`, `allowed`, `denied`, `authorize`, `any`, `none`) call one rule and
    normalise what it returns.
  - Both gates are modelled as classes (`ScutumGate.Gate`, `ThyrosGate.Gate`) over the shared
    state and functions of `Registry`.
  - thyros's singleton machinery is modelled as `ThyrosGate.GateClass`.
- **The policy helpers** are `_get_method` and `_to_actions`.
  - scutum's helper looks at the class's own `__dict__`.
  - thyros's helper looks at `dir(cls)`, inherited members included.
  - They are modelled over an explicit model of Python classes (`Classes`) and insertion-ordered
    dictionaries (`Dicts`).
- **`GateVariants`** states where the two gates answer differently from the same registered state,
  and where they agree.

Rule bodies are host code. What a rule returns is supplied by a parameter
`host: Semantics`, which maps a function and its positional arguments to a result: a `bool`,
a `Response` (only its `allowed` flag is visible), or any other object, of which only its truth
value matters. Instantiating a policy class (`cls()`) is a parameter `obj` as well.

Where the project's own documentation and the code disagree, the model follows the code:
- `has_rule` catches only RuleNotFoundException, so a missing intermediate scope makes it raise
  ScopeNotFound rather than return false.
- `add_rule` does not check that the rule is callable; `call` raises TypeError when it is not.
- The gates do not store their rules in a `Scope`: they keep a flat set and a flat dictionary.
- Neither `Scope` nor the gates take any lock.
- scutum's `allowed`, `denied`, `any` and `none` raise ActionNotFound for an unknown action.
  thyros's raise KeyError.

## Model

| member | source | states |
|---|---|---|
| ScopeRegistry.Scope.constructor | scutum/scope.py:12-15 | a new scope has the given name and parent, no rules and no children |
| ScopeRegistry.Scope.Create | scutum/scope.py:6-22 | `Scope(name, parent, childrens)` succeeds exactly when every child links in order under its own name and then the link into `parent` succeeds; it fails only with ScopeNotFound; the new scope's value is the children linked in order, the parent's new value has it under `name`, and its parent pointer is the scope that `name` resolves to in `parent`; when the link into `parent` fails, `parent` keeps its value |
| ScopeRegistry.Scope.Build | scutum/scope.py:12-22 | the new scope holds exactly the children linked in order; the scopes of `parent`'s footprint are left as they were |
| ScopeRegistry.Scope.Fresh | scutum/scope.py:12-15 | a fresh empty scope with the given name and parent, lying outside every existing footprint |
| ScopeRegistry.Scope.AddChildren | scutum/scope.py:20-22 | the loop over `childrens` leaves the value that linking each child in turn gives, or fails with the error of the first child that does not link |
| ScopeRegistry.Scope.AddEntry | scutum/scope.py:21-22 | one turn of that loop extends the linked prefix by one child, or fails exactly when linking the whole sequence fails |
| ScopeRegistry.Scope.ResolveScope | scutum/scope.py:69-76 | succeeds exactly when every segment names a child of the scope reached, and returns the scope reached; missing segments give ScopeNotFound |
| ScopeRegistry.Scope.ResolvePath | scutum/scope.py:84-89 | a one-segment path is a leaf of the receiving scope; otherwise the scope part is resolved; fails only with ScopeNotFound |
| ScopeRegistry.Scope.GetRule | scutum/scope.py:78-82 | the result equals the tree lookup `ScopeTree.GetRule` on the scope's value |
| ScopeRegistry.Scope.HasRule | scutum/scope.py:24-29 | the result equals `ScopeTree.HasRule` on the scope's value |
| ScopeRegistry.Scope.GetScope | scutum/scope.py:51-52 | succeeds exactly when the path walks to a scope, returning the live scope object the path reaches (not a copy), valid and with the subtree reached as its value |
| ScopeRegistry.Scope.HasScope | scutum/scope.py:44-49 | true exactly when the path walks to a scope |
| ScopeRegistry.Scope.Call | scutum/scope.py:65-67 | the result equals `ScopeTree.Call`: the resolved rule called with the arguments, TypeError for a non-callable |
| ScopeRegistry.Scope.AddRule | scutum/scope.py:34-36 | outcome and new value are those of `ScopeTree.AddRule`; the tree shape is unchanged; on failure nothing changes |
| ScopeRegistry.Scope.RemoveRule | scutum/scope.py:38-42 | outcome and new value are those of `ScopeTree.RemoveRule`; on failure nothing changes |
| ScopeRegistry.Scope.AddScope | scutum/scope.py:54-57 | outcome and new value are those of `ScopeTree.AddScope`; on success the linked scope's parent is the resolved scope, and a child it replaces (the scope `get_scope(path)` returned before) leaves the footprint still valid with its old value; no scope that leaves the footprint is changed; on failure nothing changes |
| ScopeRegistry.Scope.LinkAt | scutum/scope.py:56-57 | linking under the resolved scope updates the value at that path with the new child and sets the parent pointer; a replaced child stays valid with its old value and is the only part that leaves the footprint |
| ScopeRegistry.Scope.Attach | scutum/scope.py:56-57 | the two assignments of `add_scope` on the resolved scope |
| ScopeRegistry.Scope.RemoveScope | scutum/scope.py:59-63 | outcome and new value are those of `ScopeTree.RemoveScope`; on success the removed scope (the one `get_scope(path)` returned before) is still valid with its old value, the footprint loses exactly its footprint, and no scope that leaves is changed; on failure nothing changes |
| ScopeRegistry.Scope.UnlinkAt | scutum/scope.py:63 | unlinking at the resolved scope deletes that child from the value at that path; the unlinked child stays valid with its old value and is the only part that leaves the footprint |
| ScopeRegistry.Scope.Detach | scutum/scope.py:63 | the deletion of `remove_scope` on the resolved scope |
| ScopeRegistry.Untouched | scutum/scope.py:54-63 | a scope whose footprint kept its fields keeps its validity and its value |
| Paths.JoinSplit | scutum/scope.py:85-88 | joining the pieces of `split(":")` with `":"` gives back the string |
| Paths.Split | scutum/scope.py:70 | `path.split(":")`: the pieces between separators, empty pieces included; never empty |
| Paths.Join | scutum/scope.py:88 | `":".join(parts)` for a non-empty list |
| Paths.SplitJoin | scutum/scope.py:85-89 | splitting a join of separator-free pieces gives back the pieces, so the scope part of `_resolve_path` is resolved segment by segment |
| Paths.SplitSegments | scutum/scope.py:70 | no piece of a split contains a separator |
| Paths.SplitSingle | scutum/scope.py:85-87 | a path without a separator splits into itself alone |
| Paths.SplitMany | scutum/scope.py:85-88 | a path with a separator splits into at least two pieces, so it takes the scope branch |
| ScopeTree.TargetSegments | scutum/scope.py:84-89 | an N-segment path walks segments 0..N-2 and names segment N-1 as the leaf |
| ScopeTree.Walk | scutum/scope.py:69-76 | `_resolve_scope` after the split: each segment must name a child of the scope reached, else ScopeNotFound |
| ScopeTree.Target | scutum/scope.py:84-89 | `_resolve_path`: a one-segment path is a leaf of the receiving scope, otherwise the joined scope part is split again and walked |
| ScopeTree.GetRule | scutum/scope.py:78-82 | `_resolve_rule`: RuleNotFound when the resolved scope has no such rule |
| ScopeTree.HasRule | scutum/scope.py:24-29 | `has_rule`: only RuleNotFound becomes false |
| ScopeTree.GetScope | scutum/scope.py:51-52 | `get_scope`: every segment of the path is a child lookup |
| ScopeTree.HasScope | scutum/scope.py:44-49 | `has_scope`: ScopeNotFound becomes false |
| ScopeTree.AddRule | scutum/scope.py:34-36 | `add_rule`: inserts or overwrites the leaf rule of the resolved scope |
| ScopeTree.RemoveRule | scutum/scope.py:38-42 | `remove_rule`: RuleNotFound for an absent leaf, else deletes it |
| ScopeTree.AddScope | scutum/scope.py:54-57 | `add_scope`: inserts or overwrites the leaf child of the resolved scope |
| ScopeTree.RemoveScope | scutum/scope.py:59-63 | `remove_scope`: ScopeNotFound for an absent leaf child, else deletes it |
| ScopeTree.AddScopes | scutum/scope.py:20-22 | the constructor's loop: `add_scope(child.name, child)` for each child in turn, stopping at the first failure |
| ScopeTree.Call | scutum/scope.py:65-67 | `call`: the resolved rule called with the arguments as given |
| ScopeTree.SingleSegment | scutum/scope.py:86-87 | a single segment is looked up in the receiving scope itself |
| ScopeTree.TargetCovers | scutum/scope.py:84-89 | the scope segments followed by the leaf are exactly the pieces of the path |
| ScopeTree.WalkAppend | scutum/scope.py:69-76 | resolving `a + b` resolves `a`, then `b` from the scope reached, failing wherever either fails |
| ScopeTree.WalkUpdate | scutum/scope.py:34-63 | after an edit at a resolved scope, the same segments resolve to the edited scope |
| ScopeTree.WalkFrame | scutum/scope.py:34-63 | every scope path that an edit does not affect resolves exactly when it did, to a scope with the same rules |
| ScopeTree.RuleEditFrame | scutum/scope.py:36-42 | a rule edit keeps every other rule lookup |
| ScopeTree.AddScopesFails | scutum/scope.py:20-22 | once linking a prefix of the children fails, the whole sequence fails the same way |
| ScopeTree.WalkFails | scutum/scope.py:73-74 | walking fails only with ScopeNotFound |
| ScopeTree.MissingScope | scutum/scope.py:69-76 | a missing intermediate scope makes get_rule, has_rule, call, add_rule, remove_rule, add_scope and remove_scope all raise ScopeNotFound |
| ScopeTree.AddThenGet | scutum/scope.py:34-36 | add_rule succeeds exactly when the scope part resolves; afterwards get_rule returns the rule, has_rule is true and call calls it |
| ScopeTree.AddRuleFrame | scutum/scope.py:34-36 | add_rule changes no other rule lookup and no scope's existence |
| ScopeTree.HasRuleOutcomes | scutum/scope.py:24-29 | has_rule is true exactly when the rule resolves, false exactly for an absent leaf of an existing scope, and raises ScopeNotFound exactly when the scope part is missing |
| ScopeTree.RemoveRuleSpec | scutum/scope.py:38-42 | remove_rule raises RuleNotFound exactly for an absent leaf; otherwise it deletes exactly that rule, after which has_rule is false, and leaves every other rule lookup alone |
| ScopeTree.AddScopeSpec | scutum/scope.py:54-57 | add_scope succeeds exactly when the parent part already exists (no implicit creation); it inserts or overwrites the child, after which the whole path names it |
| ScopeTree.RemoveScopeSpec | scutum/scope.py:59-63 | remove_scope raises ScopeNotFound exactly for an absent child; otherwise it removes that child only, after which has_scope is false |
| ScopeTree.RemoveScopeFrame | scutum/scope.py:59-63 | removing a scope leaves every rule lookup whose path does not pass through the removed child unchanged |
| ScopeTree.ScopeEditFrame | scutum/scope.py:54-57 | add_scope keeps every rule lookup whose path does not go through the linked child |
| ScopeTree.NestingNeedsParent | scutum/scope.py:54-57 | `add_scope("a:b", S)` fails while `a` is missing; after adding `a` it succeeds, and a rule added as `a:b:r` resolves |
| ScopeTree.AddScopeFailure | scutum/scope.py:55 | add_scope fails only with ScopeNotFound, whatever the child |
| ScopeTree.AddScopesFailure | scutum/scope.py:20-22 | linking the children fails only with ScopeNotFound |
| ScopeTree.AddPlainScopes | scutum/scope.py:20-22 | children with distinct plain names end up side by side under those names, and nothing else is added |
| Host.CallValue | scutum/scope.py:67 | calling a value raises TypeError exactly when it is not callable, and otherwise returns the call's result |
| Host.Invoke | scutum/policy.py:3-13 | what a call returns: a host function by `host`, a default policy method `True`, a sync wrapper the wrapped call with the instance first, an async wrapper an un-awaited coroutine object |
| Host.Truthy | scutum/gate.py:71 | `bool(result)` for a result that is not a Response |
| Host.ResponseAuthorize | scutum/gate.py:87-88 | `Response.authorize()` raises exactly when the response does not allow |
| Host.WrapperForwards | scutum/policy.py:5-6 | a wrapper passes the user and the arguments on unchanged after the bound instance |
| Registry.Register | scutum/gate.py:23-29 | `_register_func` (written the same way at thyros/gate/_gate.py:37-43) raises TypeError exactly for a non-callable; otherwise the action is known, its rule is the first one ever registered for it, and nothing else changes |
| Registry.Remove | scutum/gate.py:59-62 | `remove` (the same at thyros/gate/_gate.py:63-66) makes the action unknown, keeps every other rule, and changes nothing for an unknown action |
| Registry.Has | scutum/gate.py:14-15 | `has(action)`: membership in the action set |
| Registry.Qualify | scutum/gate.py:36 | `f"{name}:{action}"` |
| Registry.RegisterEach | scutum/gate.py:35-36 | registering a policy's actions one by one keeps the state valid and every rule already there |
| Registry.Check | scutum/gate.py:64-71 | `check` (the same at thyros/gate/_gate.py:68-75) raises ActionNotFound exactly for an unknown action; otherwise it returns a Response as it is and any other result as `Bool(bool(result))` |
| Registry.EmptyValid | scutum/gate.py:9-12 | the empty gate is valid and knows no action |
| Registry.HasRule | scutum/gate.py:14-15 | `has` is true exactly when a rule is stored for the action |
| Registry.RegisterTwice | scutum/gate.py:25-27 | registering an action again changes nothing |
| Registry.RemoveUndoesRegister | scutum/gate.py:59-62 | removing an action just registered for the first time restores the state |
| Registry.QualifyInjective | scutum/gate.py:36 | different actions of one policy get different qualified names |
| Registry.RegisterEachSpec | scutum/gate.py:35-36 | registering a policy's items adds `name:action` for exactly its items, with their rules where the name was new, and keeps every rule there was |
| Registry.RegisterEachTwice | thyros/gate/_gate.py:54-56 | registering a policy's items a second time changes nothing |
| Registry.RegisterEachKnown | scutum/gate.py:35-36 | registering items whose qualified names are all known changes nothing |
| Dicts.Put | scutum/policy.py:25 | `d[k] = v` keeps an existing key in place with the new value, appends a new key, and leaves every other key's value alone |
| Classes.Dir | thyros/policy.py:12 | `dir(cls)` lists every attribute name of the class and its bases, once each, sorted |
| Classes.GetAttr | thyros/policy.py:13 | `getattr(cls, name)`: the class's own attribute, else the one of the first base in resolution order that defines it |
| ScutumPolicy.GetMethod | scutum/policy.py:3-7 | calling the wrapper calls the method with the instance first and the arguments unchanged |
| ScutumPolicy.MethodWrapper | scutum/policy.py:28-32 | `Policy` and `BasePolicy` wrap synchronously, `AsyncPolicy` asynchronously, always bound to the instance |
| ScutumPolicy.ActionsOf | scutum/policy.py:22-25 | the dictionary built so far has keys from the class's dictionary and wrappers of the lineage's kind as values |
| ScutumPolicy.ToActions | scutum/policy.py:18-26 | the loop returns `Actions(policy, obj)` |
| ScutumPolicy.ActionsExact | scutum/policy.py:23-25 | the actions are exactly the public callables of the class's own dictionary, each once, each wrapped with the shared instance |
| ScutumPolicy.InheritedExcluded | scutum/policy.py:23 | a member that only a base class defines is never an action |
| ScutumPolicy.PolicyActionsForward | scutum/policy.py:24-25 | for a `Policy` subclass, calling an action with a user and arguments calls the member with the instance, the user and the arguments |
| ScutumGate.WithPolicy | scutum/gate.py:31-39 | `_register_policy` raises TypeError exactly for a class that is not a `Policy`; a known name changes nothing; otherwise the name joins the policies and the state stays valid |
| ScutumGate.WithPolicyExact | scutum/gate.py:33-37 | a new policy adds under `name:action` exactly the class's own public callables, bound to the instance, and keeps every rule |
| ScutumGate.WithPolicyTwice | scutum/gate.py:33 | registering a policy again under the same name changes nothing, whatever instance is created |
| ScutumGate.Allowed | scutum/gate.py:73-77 | ActionNotFound exactly for an unknown action; otherwise the rule's verdict (a Response's flag, else truthiness) |
| ScutumGate.Denied | scutum/gate.py:79-83 | ActionNotFound exactly for an unknown action; otherwise the negated verdict |
| ScutumGate.Authorize | scutum/gate.py:85-91 | passes exactly when the action is known and the rule grants; a denying Response raises through its `authorize()`, any other denial raises AuthorizationException |
| ScutumGate.AllowedEach | scutum/gate.py:94 | the list of verdicts in order, or ActionNotFound when any action is unknown |
| ScutumGate.Any | scutum/gate.py:93-94 | true exactly when one of the actions is allowed; raises when any is unknown |
| ScutumGate.None | scutum/gate.py:96-97 | true exactly when none of the actions is allowed; raises when any is unknown |
| ScutumGate.DeniedNegatesAllowed | scutum/gate.py:79-83 | `denied` is the exact negation of `allowed`, and both fail alike |
| ScutumGate.AuthorizeIffAllowed | scutum/gate.py:85-91 | `authorize` passes exactly when `allowed` is true |
| ScutumGate.AnyNoShortCircuit | scutum/gate.py:94 | `any` evaluates the whole list: an unknown action after an allowed one still raises |
| ScutumGate.Gate.constructor | scutum/gate.py:9-12 | a new gate is empty |
| ScutumGate.Gate.RegisterFunc | scutum/gate.py:23-29 | the new state is `Registry.Register` of the old one; on TypeError nothing changes |
| ScutumGate.Gate.AddAction | scutum/gate.py:47-48 | the same as `_register_func` |
| ScutumGate.Gate.RegisterPolicy | scutum/gate.py:31-39 | the new state is `WithPolicy` of the old one; on TypeError nothing changes |
| ScutumGate.Gate.AddPolicy | scutum/gate.py:56-57 | the same as `_register_policy` |
| ScutumGate.Gate.Remove | scutum/gate.py:59-62 | the new state is `Registry.Remove` of the old one |
| ThyrosPolicy.GetMethod | thyros/policy.py:1-4 | calling the wrapper calls the method with the instance first and the arguments unchanged |
| ThyrosPolicy.ActionsOf | thyros/policy.py:11-15 | the dictionary built so far has keys from the visited names and instance-bound wrappers as values |
| ThyrosPolicy.ToActions | thyros/policy.py:8-16 | the loop over `dir(cls)` returns `Actions(policy, obj)` |
| ThyrosPolicy.ActionsInOrder | thyros/policy.py:12-15 | visiting sorted names appends the public callables among them, each once, in sorted order |
| ThyrosPolicy.ActionsValues | thyros/policy.py:13-15 | each action wraps what `getattr` finds under its name |
| ThyrosPolicy.ActionsExact | thyros/policy.py:8-16 | the actions are exactly the public callables among all names of the class and its bases, each wrapped with the shared instance, in sorted order |
| ThyrosPolicy.InheritedIncluded | thyros/policy.py:12-13 | an inherited public callable is an action |
| ThyrosPolicy.BaseActions | thyros/policy.py:18-31 | the base `Policy` has exactly the actions create, delete, update, view and view_many, in that order |
| ThyrosPolicy.UniformActions | thyros/policy.py:12-15 | a class whose attributes are all public and all one callable has one action per attribute, in sorted order |
| ThyrosPolicy.DefaultMembers | thyros/policy.py:18-31 | every member of the base `Policy` is a default method |
| ThyrosPolicy.DefaultsAllow | thyros/policy.py:18-31 | each default action returns `True`, whatever the user and the arguments |
| ThyrosGate.WithPolicy | thyros/gate/_gate.py:50-61 | the decorator raises TypeError exactly for a non-`Policy` class; otherwise the state stays valid and the policy names are never changed |
| ThyrosGate.WithPolicyExact | thyros/gate/_gate.py:53-56 | the decorator adds under `name:action` exactly the public callables of the class and its bases, bound to the instance, and keeps every rule |
| ThyrosGate.WithPolicyTwice | thyros/gate/_gate.py:53 | since the name is never recorded, applying the decorator again registers again, which changes nothing |
| ThyrosGate.Allowed | thyros/gate/_gate.py:77-79 | KeyError exactly for an unknown action; a Response gives the bool of its `allowed` flag, any other result is returned as it is |
| ThyrosGate.Denied | thyros/gate/_gate.py:81-83 | KeyError exactly for an unknown action; a Response gives its negated flag, any other result is returned as it is, the same as `allowed` |
| ThyrosGate.DeniedAgreesWithAllowed | thyros/gate/_gate.py:83 | a rule that returns `True` is both allowed and denied |
| ThyrosGate.DeniedIntended | thyros/gate/_gate.py:81-83 | the corrected `denied`: KeyError exactly for an unknown action, otherwise the negated verdict |
| ThyrosGate.DeniedIntendedNegates | thyros/gate/_gate.py:81-83 | the corrected `denied` is the exact negation of `allowed` |
| ThyrosGate.Authorize | thyros/gate/_gate.py:85-91 | KeyError for an unknown action; raises exactly for a denying Response or the bool `False`; any other falsy result passes |
| ThyrosGate.AllowedEach | thyros/gate/_gate.py:94 | element `i` is exactly `allowed(actions[i])`, for every action in order, or KeyError when any action is unknown |
| ThyrosGate.Any | thyros/gate/_gate.py:93-94 | true exactly when one of the actions is allowed; raises when any is unknown |
| ThyrosGate.None | thyros/gate/_gate.py:96-97 | true exactly when none of the actions is allowed |
| ThyrosGate.Gate.constructor | thyros/gate/_gate.py:23-26 | a new instance is empty |
| ThyrosGate.Gate.Init | thyros/gate/_gate.py:23-26 | `__init__` on the shared instance empties it |
| ThyrosGate.Gate.RegisterFunc | thyros/gate/_gate.py:37-43 | the new state is `Registry.Register` of the old one; on TypeError nothing changes |
| ThyrosGate.Gate.Policy | thyros/gate/_gate.py:50-61 | the new state is `WithPolicy` of the old one; the decorator returns the class it was given |
| ThyrosGate.Gate.Remove | thyros/gate/_gate.py:63-66 | the new state is `Registry.Remove` of the old one |
| ThyrosGate.GateClass.constructor | thyros/gate/_gate.py:10 | `_instance` starts as None |
| ThyrosGate.GateClass.New | thyros/gate/_gate.py:13-16 | `Gate()` creates the instance only the first time and returns the same object every later time, emptied by `__init__` |
| GateVariants.UnknownAction | thyros/gate/_gate.py:77-86 | for an unknown action both `check`s and scutum's queries raise ActionNotFound, while thyros's `allowed`, `denied` and `authorize` raise KeyError |
| GateVariants.AllowedAgree | thyros/gate/_gate.py:77-79 | for known actions both `allowed`s give the same verdict, and both `any`s and `none`s agree |
| GateVariants.DeniedOnBool | thyros/gate/_gate.py:81-83 | for a bool result scutum's `denied` negates it, thyros's returns it |
| GateVariants.FalsyObjectAuthorize | thyros/gate/_gate.py:85-91 | a falsy non-bool result makes scutum's `authorize` raise and thyros's pass |
| GateVariants.AuthorizeAgree | thyros/gate/_gate.py:85-91 | for bool and Response results both `authorize`s agree |

## Left out

- `Scope.debug`: it only prints.
- scutum's `Policy`, `AsyncPolicy` and `BasePolicy` differ only in `_method_wrapper`. Calling an
  async wrapper without awaiting it returns a coroutine object, modelled as a truthy object that
  is neither a bool nor a Response. The coroutine's eventual result is not modelled.
  `_register_policy` accepts any `Policy` subclass, so an async wrapper could reach a scutum gate
  through a class that also derives from `AsyncPolicy` or overrides `_method_wrapper`.
- ScutumPolicy.MethodWrapper, ScutumGate.WithPolicy: the wrapper is fixed by one of three
  single-inheritance lineages (`Policy`, `AsyncPolicy`, `BasePolicy`). A class inheriting from
  both `AsyncPolicy` and `Policy`, or a `Policy` subclass overriding `_method_wrapper`, would make
  the gate register async wrappers; the model does not represent either.
- ThyrosPolicy.PolicyClass: whether a class derives from thyros's `Policy` is a free flag, not
  computed from its bases, so the model also admits flagged classes that lack the default members.
- Keyword arguments: rules are called with positional arguments only.
- The `register` and `policy` decorators of scutum's gate are left out; they only call the
  modelled `_register_func` and `_register_policy`. So are the `actions()` and `policies()`
  getters of both gates, which return the fields as they are.
- `cls()` in `_to_actions` is the parameter `obj`: the constructor of a user's policy class is
  host code.
- The attributes of `object`, which `dir(cls)` also lists, are not represented. They all begin
  with `_`, and such names are never actions.
- `Singleton.__init__` and `_initialized`: `Gate.__init__` overrides them without calling them.
- Thread safety, and the number of times a rule is called: rule bodies are pure functions of
  their arguments here.
- Exceptions raised by a rule body: `host` always returns a result. So `has_rule`'s narrow
  `except` never meets a rule's own exception, and neither does the gates' propagation of it.
- Descriptors: the entries of `cls.__dict__` that scutum's helper sees and the results of
  `getattr` that thyros's helper sees are both one `Value`. A `staticmethod` or `classmethod`
  entry and the function that `getattr` unwraps from it are not told apart, and neither is
  a bound method from a plain function.
- ScopeRegistry.Scope.Create: the model links the children into the new scope before linking the
  new scope into `parent`, where the source links into `parent` first. On success the two orders
  give the same state. On failure the model leaves the children linked to the discarded scope, and
  `parent` with its old value, as its contract states. The source leaves the new scope linked into
  `parent` when a child fails to link.
- ScopeRegistry.Scope.Create, ScopeRegistry.Scope.AddScope: the scopes are assumed to form a tree.
  No scope is its own ancestor, and a scope is not linked under two parents. `add_scope` of a
  scope that already lies inside the receiving tree is not modelled.
- thyros/authorizable.py, scutum/authorizable.py and the framework adapters are not part of this model.
- ThyrosGate.DeniedIntended is the corrected `denied` (see Findings). The rest of the model keeps
  thyros's `denied` as written, which is what `ThyrosGate.Denied` and `GateVariants` describe.

## Findings

| source | as written | input that shows it | evidently intended | confidence | as-written member | corrected member |
|---|---|---|---|---|---|---|
| thyros/gate/_gate.py:83 | `denied` negates the flag of a Response but returns any other result un-negated | a rule that returns `True`: `allowed` and `denied` both return `True` | `not response` for a result that is not a Response, as scutum's `denied` does | high; not executed | ThyrosGate.DeniedAgreesWithAllowed | ThyrosGate.DeniedIntended |
