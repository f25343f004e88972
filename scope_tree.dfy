/**
 * The value of a scutum `Scope` and its path-addressed operations, as functions on trees.
 *
 * A scope holds rules and child scopes under local names. A colon-separated path names a
 * scope by all its segments but the last (walked as child lookups from the receiving scope)
 * and a leaf by its last segment. These functions are the specification that the `Scope`
 * class (module ScopeRegistry) is proved against; the lemmas state what they promise.
 */
module ScopeTree {
  import opened Host
  import opened Paths

  /** A scope's rules and child scopes by local name. */
  datatype Tree = Tree(rules: map<string, Value>, children: map<string, Tree>)

  /** A change to the local dictionaries of one scope. */
  datatype Edit =
    | SetRule(name: string, rule: Value)
    | DelRule(name: string)
    | SetChild(name: string, child: Tree)
    | DelChild(name: string)
  {
    predicate OnRules() {
      SetRule? || DelRule?
    }
  }

  function Apply(t: Tree, e: Edit): Tree {
    match e
    case SetRule(k, v) => t.(rules := t.rules[k := v])
    case DelRule(k) => t.(rules := t.rules - {k})
    case SetChild(k, c) => t.(children := t.children[k := c])
    case DelChild(k) => t.(children := t.children - {k})
  }

  /** `_resolve_scope` after the split: each segment must name a child of the scope reached. */
  function Walk(t: Tree, segs: seq<string>): Result<Tree>
    decreases |segs|
  {
    if segs == [] then Ok(t)
    else if segs[0] !in t.children then Fail(ScopeNotFound)
    else Walk(t.children[segs[0]], segs[1..])
  }

  /** Applies `e` to the scope that `segs` reaches; the tree is unchanged if it reaches none. */
  function UpdateAt(t: Tree, segs: seq<string>, e: Edit): Tree
    decreases |segs|
  {
    if segs == [] then Apply(t, e)
    else if segs[0] !in t.children then t
    else t.(children := t.children[segs[0] := UpdateAt(t.children[segs[0]], segs[1..], e)])
  }

  /**
   * `_resolve_path`: a one-segment path is a leaf of the receiving scope; otherwise the
   * segments before the last are joined with ':' and split again by `_resolve_scope`.
   */
  function Target(path: string): (seq<string>, string) {
    var parts := Split(path);
    if |parts| == 1 then ([], parts[0])
    else (Split(Join(parts[..|parts| - 1])), parts[|parts| - 1])
  }

  /** `Scope._resolve_rule` (and `get_rule`). */
  function GetRule(t: Tree, path: string): Result<Value> {
    var (segs, leaf) := Target(path);
    match Walk(t, segs)
    case Fail(e) => Fail(e)
    case Ok(s) => if leaf in s.rules then Ok(s.rules[leaf]) else Fail(RuleNotFound)
  }

  /** `Scope.has_rule`: catches RuleNotFoundException only. */
  function HasRule(t: Tree, path: string): Result<bool> {
    match GetRule(t, path)
    case Ok(_) => Ok(true)
    case Fail(e) => if e == RuleNotFound then Ok(false) else Fail(e)
  }

  /** `Scope.get_scope`: every segment of the path is a child lookup. */
  function GetScope(t: Tree, path: string): Result<Tree> {
    Walk(t, Split(path))
  }

  /** `Scope.has_scope`: catches ScopeNotFoundException. */
  function HasScope(t: Tree, path: string): bool {
    GetScope(t, path).Ok?
  }

  /** `Scope.add_rule`: inserts or overwrites the leaf rule; never creates scopes. */
  function AddRule(t: Tree, path: string, rule: Value): Result<Tree> {
    var (segs, leaf) := Target(path);
    match Walk(t, segs)
    case Fail(e) => Fail(e)
    case Ok(_) => Ok(UpdateAt(t, segs, SetRule(leaf, rule)))
  }

  /** `Scope.remove_rule`. */
  function RemoveRule(t: Tree, path: string): Result<Tree> {
    var (segs, leaf) := Target(path);
    match Walk(t, segs)
    case Fail(e) => Fail(e)
    case Ok(s) => if leaf !in s.rules then Fail(RuleNotFound) else Ok(UpdateAt(t, segs, DelRule(leaf)))
  }

  /** `Scope.add_scope`: links (or relinks) a child under the leaf name of an existing scope. */
  function AddScope(t: Tree, path: string, child: Tree): Result<Tree> {
    var (segs, leaf) := Target(path);
    match Walk(t, segs)
    case Fail(e) => Fail(e)
    case Ok(_) => Ok(UpdateAt(t, segs, SetChild(leaf, child)))
  }

  /** `Scope.remove_scope`. */
  function RemoveScope(t: Tree, path: string): Result<Tree> {
    var (segs, leaf) := Target(path);
    match Walk(t, segs)
    case Fail(e) => Fail(e)
    case Ok(s) => if leaf !in s.children then Fail(ScopeNotFound) else Ok(UpdateAt(t, segs, DelChild(leaf)))
  }

  /** The children of `Scope(name, childrens=...)`: each linked in turn by `add_scope(child.name, child)`. */
  function AddScopes(t: Tree, entries: seq<(string, Tree)>): Result<Tree>
    decreases |entries|
  {
    if entries == [] then Ok(t)
    else
      match AddScopes(t, entries[..|entries| - 1])
      case Fail(e) => Fail(e)
      case Ok(t') => AddScope(t', entries[|entries| - 1].0, entries[|entries| - 1].1)
  }

  /** `Scope.call`: the resolved rule called with the arguments as given. */
  function Call(host: Semantics, t: Tree, path: string, args: seq<Value>): Result<RuleResult> {
    match GetRule(t, path)
    case Fail(e) => Fail(e)
    case Ok(rule) => CallValue(host, rule, args)
  }

  // ---------------------------------------------------------------------------------------
  // Path resolution

  /**
   * A one-segment path addresses the receiving scope itself; an N-segment path walks
   * segments 0..N-2 as children and names segment N-1 as the leaf.
   */
  lemma TargetSegments(path: string)
    ensures var parts := Split(path);
      Target(path) == (parts[..|parts| - 1], parts[|parts| - 1])
  {
    var parts := Split(path);
    if |parts| > 1 {
      SplitSegments(path);
      assert Segments(parts[..|parts| - 1]);
      SplitJoin(parts[..|parts| - 1]);
    }
  }

  /** A single segment is looked up in the receiving scope, with no child lookup. */
  lemma SingleSegment(t: Tree, name: string)
    requires Sep !in name
    ensures Target(name) == ([], name)
    ensures GetRule(t, name) == if name in t.rules then Ok(t.rules[name]) else Fail(RuleNotFound)
  {
    SplitSingle(name);
  }

  /** The leaf and the scope segments together are the whole path. */
  lemma TargetCovers(path: string)
    ensures Target(path).0 + [Target(path).1] == Split(path)
  {
    TargetSegments(path);
  }

  lemma {:induction false} WalkAppend(t: Tree, a: seq<string>, b: seq<string>)
    ensures Walk(t, a + b) == match Walk(t, a) case Fail(e) => Fail(e) case Ok(s) => Walk(s, b)
    decreases |a|
  {
    if a == [] {
      assert a + b == b;
    } else {
      assert (a + b)[0] == a[0] && (a + b)[1..] == a[1..] + b;
      if a[0] in t.children {
        WalkAppend(t.children[a[0]], a[1..], b);
      }
    }
  }

  /** Walking fails only with ScopeNotFound. */
  lemma {:induction false} WalkFails(t: Tree, segs: seq<string>)
    ensures Walk(t, segs).Fail? ==> Walk(t, segs).error == ScopeNotFound
    decreases |segs|
  {
    if segs != [] && segs[0] in t.children {
      WalkFails(t.children[segs[0]], segs[1..]);
    }
  }

  // ---------------------------------------------------------------------------------------
  // Updates along a path

  /** After an update at `segs`, the scope at `segs` is the edited scope. */
  lemma {:induction false} WalkUpdate(t: Tree, segs: seq<string>, e: Edit)
    requires Walk(t, segs).Ok?
    ensures Walk(UpdateAt(t, segs, e), segs) == Ok(Apply(Walk(t, segs).value, e))
    decreases |segs|
  {
    if segs != [] {
      WalkUpdate(t.children[segs[0]], segs[1..], e);
    }
  }

  /** The paths whose scope an edit at `segs` changes, in its rules or in what it reaches. */
  predicate Affected(segs: seq<string>, e: Edit, q: seq<string>) {
    if e.OnRules() then q == segs else segs + [e.name] <= q
  }

  /**
   * Every scope that the edit does not affect keeps both its existence and its rules: the
   * edit changes nothing outside the scope at `segs` and, for a child edit, its new child.
   */
  lemma {:induction false} WalkFrame(t: Tree, segs: seq<string>, e: Edit, q: seq<string>)
    requires Walk(t, segs).Ok?
    requires !Affected(segs, e, q)
    ensures Walk(UpdateAt(t, segs, e), q).Ok? == Walk(t, q).Ok?
    ensures Walk(t, q).Ok? ==> Walk(UpdateAt(t, segs, e), q).value.rules == Walk(t, q).value.rules
    decreases |q|
  {
    var t' := UpdateAt(t, segs, e);
    if q == [] {
    } else if segs == [] {
      // the edit is at the root of `t`, and `q` leaves it by a child the edit keeps
      assert q[0] in t'.children <==> q[0] in t.children;
      if q[0] in t.children {
        assert t'.children[q[0]] == t.children[q[0]];
      }
    } else if segs[0] != q[0] {
      assert t'.children == t.children[segs[0] := t'.children[segs[0]]];
    } else {
      assert segs[1..] + (if e.OnRules() then [] else [e.name]) <= q[1..] ==>
             segs + (if e.OnRules() then [] else [e.name]) <= q;
      assert !Affected(segs[1..], e, q[1..]) by {
        if e.OnRules() {
          assert q[1..] == segs[1..] ==> q == segs;
        } else {
          assert segs[1..] + [e.name] <= q[1..] ==> segs + [e.name] <= q;
        }
      }
      WalkFrame(t.children[segs[0]], segs[1..], e, q[1..]);
    }
  }

  /** An edit confined to rules changes no scope's existence. */
  lemma {:induction false} WalkShape(t: Tree, segs: seq<string>, e: Edit, q: seq<string>)
    requires Walk(t, segs).Ok? && e.OnRules()
    ensures Walk(UpdateAt(t, segs, e), q).Ok? == Walk(t, q).Ok?
    decreases |q|
  {
    if q == segs {
      WalkUpdate(t, segs, e);
    } else {
      WalkFrame(t, segs, e, q);
    }
  }

  // ---------------------------------------------------------------------------------------
  // The operations of Scope

  /** Any missing intermediate scope makes every path operation raise ScopeNotFound. */
  lemma MissingScope(host: Semantics, t: Tree, path: string, rule: Value, child: Tree, args: seq<Value>)
    requires Walk(t, Target(path).0).Fail?
    ensures GetRule(t, path) == Fail(ScopeNotFound)
    ensures HasRule(t, path) == Fail(ScopeNotFound)
    ensures Call(host, t, path, args) == Fail(ScopeNotFound)
    ensures AddRule(t, path, rule) == Fail(ScopeNotFound)
    ensures RemoveRule(t, path) == Fail(ScopeNotFound)
    ensures AddScope(t, path, child) == Fail(ScopeNotFound)
    ensures RemoveScope(t, path) == Fail(ScopeNotFound)
  {
    WalkFails(t, Target(path).0);
  }

  /** add_rule succeeds exactly when the scope part resolves; then get_rule returns the rule. */
  lemma AddThenGet(host: Semantics, t: Tree, path: string, rule: Value, args: seq<Value>)
    ensures AddRule(t, path, rule).Ok? <==> Walk(t, Target(path).0).Ok?
    ensures AddRule(t, path, rule).Ok? ==>
      var t' := AddRule(t, path, rule).value;
      && GetRule(t', path) == Ok(rule)
      && HasRule(t', path) == Ok(true)
      && Call(host, t', path, args) == CallValue(host, rule, args)
  {
    var (segs, leaf) := Target(path);
    if Walk(t, segs).Ok? {
      WalkUpdate(t, segs, SetRule(leaf, rule));
    }
  }

  /**
   * add_rule changes no other rule and no scope: every other path resolves as before, and
   * every scope path exists exactly when it did.
   */
  lemma AddRuleFrame(t: Tree, path: string, rule: Value, other: string, scopePath: string)
    requires AddRule(t, path, rule).Ok?
    requires Target(other) != Target(path)
    ensures GetRule(AddRule(t, path, rule).value, other) == GetRule(t, other)
    ensures HasScope(AddRule(t, path, rule).value, scopePath) == HasScope(t, scopePath)
  {
    var (segs, leaf) := Target(path);
    var e := SetRule(leaf, rule);
    RuleEditFrame(t, segs, e, other);
    WalkShape(t, segs, e, Split(scopePath));
  }

  /** A rule edit at (`segs`, `e.name`) leaves the lookup of every other rule alone. */
  lemma RuleEditFrame(t: Tree, segs: seq<string>, e: Edit, other: string)
    requires Walk(t, segs).Ok? && e.OnRules()
    requires Target(other) != (segs, e.name)
    ensures GetRule(UpdateAt(t, segs, e), other) == GetRule(t, other)
  {
    var (osegs, oleaf) := Target(other);
    var t' := UpdateAt(t, segs, e);
    WalkFails(t, osegs);
    WalkFails(t', osegs);
    if osegs == segs {
      WalkUpdate(t, segs, e);
    } else {
      WalkFrame(t, segs, e, osegs);
    }
  }

  /** has_rule is false for an absent leaf of an existing scope; a missing scope propagates. */
  lemma HasRuleOutcomes(t: Tree, path: string)
    ensures var (segs, leaf) := Target(path);
      && (HasRule(t, path) == Ok(true) <==> GetRule(t, path).Ok?)
      && (HasRule(t, path) == Ok(false) <==> Walk(t, segs).Ok? && leaf !in Walk(t, segs).value.rules)
      && (HasRule(t, path).Fail? <==> Walk(t, segs).Fail?)
      && (HasRule(t, path).Fail? ==> HasRule(t, path).error == ScopeNotFound)
  {
    WalkFails(t, Target(path).0);
  }

  /**
   * remove_rule raises RuleNotFound for an absent leaf; otherwise it deletes exactly that
   * rule, keeps the scope's other rules and children, and every other rule lookup.
   */
  lemma RemoveRuleSpec(t: Tree, path: string, other: string)
    requires Walk(t, Target(path).0).Ok?
    ensures var (segs, leaf) := Target(path);
      var s := Walk(t, segs).value;
      && (RemoveRule(t, path) == Fail(RuleNotFound) <==> leaf !in s.rules)
      && (RemoveRule(t, path).Ok? ==>
            && Walk(RemoveRule(t, path).value, segs) == Ok(s.(rules := s.rules - {leaf}))
            && HasRule(RemoveRule(t, path).value, path) == Ok(false)
            && (Target(other) != Target(path) ==> GetRule(RemoveRule(t, path).value, other) == GetRule(t, other)))
  {
    var (segs, leaf) := Target(path);
    var s := Walk(t, segs).value;
    if leaf in s.rules {
      WalkUpdate(t, segs, DelRule(leaf));
      if Target(other) != Target(path) {
        RuleEditFrame(t, segs, DelRule(leaf), other);
      }
    }
  }

  /**
   * add_scope succeeds exactly when the parent part of the path already exists (it never
   * creates ancestors); it then inserts or overwrites the child under the leaf name, so the
   * whole path now names that child.
   */
  lemma AddScopeSpec(t: Tree, path: string, child: Tree)
    ensures AddScope(t, path, child).Ok? <==>
      (|Split(path)| == 1 || HasScope(t, Join(Split(path)[..|Split(path)| - 1])))
    ensures AddScope(t, path, child).Ok? ==>
      var (segs, leaf) := Target(path);
      var s := Walk(t, segs).value;
      && Walk(AddScope(t, path, child).value, segs) == Ok(s.(children := s.children[leaf := child]))
      && GetScope(AddScope(t, path, child).value, path) == Ok(child)
  {
    var (segs, leaf) := Target(path);
    TargetSegments(path);
    TargetCovers(path);
    if Walk(t, segs).Ok? {
      var e := SetChild(leaf, child);
      WalkUpdate(t, segs, e);
      WalkAppend(UpdateAt(t, segs, e), segs, [leaf]);
    }
  }

  /**
   * remove_scope raises ScopeNotFound when the child is absent; otherwise it removes that
   * child entry only.
   */
  lemma RemoveScopeSpec(t: Tree, path: string)
    requires Walk(t, Target(path).0).Ok?
    ensures var (segs, leaf) := Target(path);
      var s := Walk(t, segs).value;
      && (RemoveScope(t, path) == Fail(ScopeNotFound) <==> leaf !in s.children)
      && (RemoveScope(t, path).Ok? ==>
            && Walk(RemoveScope(t, path).value, segs) == Ok(s.(children := s.children - {leaf}))
            && !HasScope(RemoveScope(t, path).value, path))
  {
    var (segs, leaf) := Target(path);
    var s := Walk(t, segs).value;
    if leaf in s.children {
      var e := DelChild(leaf);
      WalkUpdate(t, segs, e);
      TargetCovers(path);
      WalkAppend(UpdateAt(t, segs, e), segs, [leaf]);
    }
  }

  /** A scope edit keeps every rule lookup whose path does not go through the edited child. */
  lemma ScopeEditFrame(t: Tree, path: string, child: Tree, other: string)
    requires AddScope(t, path, child).Ok?
    requires !(Split(path) <= Target(other).0)
    ensures GetRule(AddScope(t, path, child).value, other) == GetRule(t, other)
  {
    var (segs, leaf) := Target(path);
    var (osegs, oleaf) := Target(other);
    var e := SetChild(leaf, child);
    TargetCovers(path);
    WalkFails(t, osegs);
    WalkFails(UpdateAt(t, segs, e), osegs);
    WalkFrame(t, segs, e, osegs);
  }

  /** Removing a scope keeps every rule lookup whose path does not go through the removed child. */
  lemma RemoveScopeFrame(t: Tree, path: string, other: string)
    requires RemoveScope(t, path).Ok?
    requires !(Split(path) <= Target(other).0)
    ensures GetRule(RemoveScope(t, path).value, other) == GetRule(t, other)
  {
    var (segs, leaf) := Target(path);
    var (osegs, oleaf) := Target(other);
    var e := DelChild(leaf);
    TargetCovers(path);
    WalkFails(t, osegs);
    WalkFails(UpdateAt(t, segs, e), osegs);
    WalkFrame(t, segs, e, osegs);
  }

  /**
   * add_scope("a:b", S) fails while "a" does not exist; once "a" has been added, it succeeds
   * and a rule added as "a:b:r" resolves.
   */
  lemma NestingNeedsParent(t: Tree, a: string, b: string, leaf: string, s: Tree, r: Value)
    requires Sep !in a && Sep !in b && Sep !in leaf
    requires a !in t.children
    ensures AddScope(t, Join([a, b]), s) == Fail(ScopeNotFound)
    ensures
      var t1 := AddScope(t, a, Tree(map[], map[]));
      t1.Ok? &&
      var t2 := AddScope(t1.value, Join([a, b]), s);
      t2.Ok? &&
      var t3 := AddRule(t2.value, Join([a, b, leaf]), r);
      t3.Ok? && GetRule(t3.value, Join([a, b, leaf])) == Ok(r)
  {
    SplitSingle(a);
    SplitJoin([a, b]);
    SplitJoin([a, b, leaf]);
    assert [a, b][..1] == [a] && [a, b, leaf][..2] == [a, b];
    TargetSegments(Join([a, b]));
    TargetSegments(Join([a, b, leaf]));
    var t1 := AddScope(t, a, Tree(map[], map[])).value;
    AddScopeSpec(t, a, Tree(map[], map[]));
    AddScopeSpec(t1, Join([a, b]), s);
    var t2 := AddScope(t1, Join([a, b]), s).value;
    AddThenGet(((_, _) => Bool(true)), t2, Join([a, b, leaf]), r, []);
  }

  /** add_scope fails only with ScopeNotFound, and whether it fails does not depend on the child. */
  lemma AddScopeFailure(t: Tree, path: string, child: Tree)
    ensures AddScope(t, path, child).Fail? ==> AddScope(t, path, child).error == ScopeNotFound
    ensures forall other: Tree {:trigger AddScope(t, path, other)} :: AddScope(t, path, other).Ok? == AddScope(t, path, child).Ok?
  {
    WalkFails(t, Target(path).0);
  }

  /** Linking children fails only with ScopeNotFound. */
  lemma {:induction false} AddScopesFailure(t: Tree, entries: seq<(string, Tree)>)
    ensures AddScopes(t, entries).Fail? ==> AddScopes(t, entries).error == ScopeNotFound
    decreases |entries|
  {
    if entries != [] {
      var n := |entries| - 1;
      AddScopesFailure(t, entries[..n]);
      if AddScopes(t, entries[..n]).Ok? {
        AddScopeFailure(AddScopes(t, entries[..n]).value, entries[n].0, entries[n].1);
      }
    }
  }

  /** Once a prefix of the children fails to link, so does the whole sequence, with the same error. */
  lemma {:induction false} AddScopesFails(t: Tree, entries: seq<(string, Tree)>, i: nat)
    requires i <= |entries| && AddScopes(t, entries[..i]).Fail?
    ensures AddScopes(t, entries) == AddScopes(t, entries[..i])
    decreases |entries| - i
  {
    if i < |entries| {
      var n := |entries| - 1;
      assert entries[..n][..i] == entries[..i];
      AddScopesFails(t, entries[..n], i);
    } else {
      assert entries[..i] == entries;
    }
  }

  /** Children with distinct plain names end up side by side under those names, and nothing fails. */
  lemma {:induction false} AddPlainScopes(entries: seq<(string, Tree)>)
    requires forall j | 0 <= j < |entries| :: Sep !in entries[j].0
    requires forall j, l | 0 <= j < l < |entries| :: entries[j].0 != entries[l].0
    ensures var r := AddScopes(Tree(map[], map[]), entries);
      && r.Ok? && r.value.rules == map[]
      && (forall j | 0 <= j < |entries| :: entries[j].0 in r.value.children && r.value.children[entries[j].0] == entries[j].1)
      && (forall x | x in r.value.children :: exists j | 0 <= j < |entries| :: entries[j].0 == x)
    decreases |entries|
  {
    if entries != [] {
      var n := |entries| - 1;
      var front := entries[..n];
      AddPlainScopes(front);
      var t := AddScopes(Tree(map[], map[]), front).value;
      SplitSingle(entries[n].0);
      assert Target(entries[n].0) == ([], entries[n].0);
      assert AddScopes(Tree(map[], map[]), entries) == Ok(t.(children := t.children[entries[n].0 := entries[n].1]));
      forall j | 0 <= j < n
        ensures entries[j] == front[j]
      {
      }
    }
  }
}
