/**
 * scutum's `Scope` as a class: each scope object owns its `rules` and `children`
 * dictionaries and updates them in place, and colon-separated paths are resolved by walking
 * child pointers from the receiving scope.
 *
 * `View()` is the abstract value of a scope (module ScopeTree); every operation is proved
 * against the function of the same name there, and ScopeTree's lemmas state what follows.
 *
 * Model assumption: the scopes below a valid scope form a tree. No scope is its own
 * ancestor, and no scope is linked under two parents inside it (`Valid()`); `AddScope`
 * therefore requires the linked scope to lie outside the receiving tree.
 */
module ScopeRegistry {
  import opened Host
  import opened Paths
  import ScopeTree

  class Scope {
    const name: string
    var rules: map<string, Value>
    var children: map<string, Scope>
    var parent: Scope?
    /** This scope and every scope below it. */
    ghost var Repr: set<Scope>

    ghost predicate Valid()
      reads this`children, this`Repr, Repr`children, Repr`Repr
      decreases Repr
    {
      && this in Repr
      && (forall k | k in children :: children[k] in Repr && children[k].Repr <= Repr && this !in children[k].Repr)
      && (forall k, j | k in children && j in children && k != j :: children[k].Repr !! children[j].Repr)
      && (forall k | k in children :: children[k].Valid())
    }

    /** The rules and the child scopes, recursively, as a value. */
    ghost function View(): ScopeTree.Tree
      reads this`rules, this`children, this`Repr, Repr`rules, Repr`children, Repr`Repr
      requires Valid()
      decreases Repr
    {
      ScopeTree.Tree(rules, map k | k in children :: children[k].View())
    }

    /** The assignments of `Scope(name, parent)`: no rules, no children, the given parent. */
    constructor (name: string, parent: Scope?)
      ensures Valid() && fresh(Repr) && Repr == {this}
      ensures View() == ScopeTree.Tree(map[], map[])
      ensures this.name == name && this.parent == parent
    {
      this.name := name;
      rules := map[];
      children := map[];
      this.parent := parent;
      Repr := {this};
    }

    /**
     * `Scope(name, parent, childrens)`: a new scope that links each of `childrens` under its
     * own name, in order, by `add_scope`, and is then linked into `parent` under `name`.
     */
    static method Create(name: string, parent: Scope?, childrens: seq<Scope>) returns (r: Result<Scope>)
      requires parent != null ==> parent.Valid()
      requires forall j | 0 <= j < |childrens| :: childrens[j].Valid()
      requires forall j, l | 0 <= j < l < |childrens| :: childrens[j].Repr !! childrens[l].Repr
      requires parent != null ==> forall j | 0 <= j < |childrens| :: childrens[j].Repr !! parent.Repr
      modifies Below(parent)`children, Below(parent)`Repr, Footprints(childrens)`children, Footprints(childrens)`Repr, childrens`parent
      ensures var built := ScopeTree.AddScopes(ScopeTree.Tree(map[], map[]), old(Entries(childrens)));
        && (r.Ok? <==> built.Ok? && (parent != null ==> ScopeTree.AddScope(old(parent.View()), name, built.value).Ok?))
        && (r.Fail? ==> r.error == ScopeNotFound)
        && (r.Ok? ==> fresh(r.value) && r.value.Valid() && r.value.View() == built.value && r.value.name == name)
        && (r.Ok? && parent == null ==> r.value.parent == null)
        && (r.Ok? && parent != null ==>
              && parent.Valid() && parent.View() == ScopeTree.AddScope(old(parent.View()), name, built.value).value
              && r.value.parent == old(parent.Find(ScopeTree.Target(name).0)))
      ensures r.Fail? && parent != null ==> parent.Valid() && parent.View() == old(parent.View())
    {
      ScopeTree.AddScopesFailure(ScopeTree.Tree(map[], map[]), Entries(childrens));
      r := Build(name, parent, childrens);
      if r.Fail? || parent == null {
        return;
      }
      Untouched(parent);
      UntouchedFind(parent, ScopeTree.Target(name).0);
      var scope := r.value;
      var linked := parent.AddScope(name, scope);
      ScopeTree.AddScopeFailure(old(parent.View()), name, scope.View());
      if linked.Fail? {
        return Fail(linked.error);
      }
    }

    /** `Scope(name, parent, childrens)` up to the link into `parent`. */
    static method Build(name: string, parent: Scope?, childrens: seq<Scope>) returns (r: Result<Scope>)
      requires parent != null ==> parent.Valid()
      requires forall j | 0 <= j < |childrens| :: childrens[j].Valid()
      requires forall j, l | 0 <= j < l < |childrens| :: childrens[j].Repr !! childrens[l].Repr
      requires parent != null ==> forall j | 0 <= j < |childrens| :: childrens[j].Repr !! parent.Repr
      modifies Footprints(childrens)`children, Footprints(childrens)`Repr, childrens`parent
      ensures var built := ScopeTree.AddScopes(ScopeTree.Tree(map[], map[]), old(Entries(childrens)));
        && (r.Ok? <==> built.Ok?)
        && (r.Fail? ==> r.error == built.error)
        && (r.Ok? ==> fresh(r.value) && r.value.Valid() && r.value.View() == built.value && r.value.parent == parent)
        && (r.Ok? ==> r.value.name == name)
        && (r.Ok? && parent != null ==> r.value.Repr !! old(parent.Repr))
      ensures forall m | m in old(Below(parent)) :: m.rules == old(m.rules) && m.children == old(m.children) && m.Repr == old(m.Repr)
    {
      ghost var entries, below, outside := Entries(childrens), Footprints(childrens), Below(parent);
      var scope := Fresh(name, parent, childrens, entries, below, outside);
      var added := scope.AddChildren(childrens, entries, below, outside);
      if added.Fail? {
        return Fail(added.error);
      }
      return Ok(scope);
    }

    /**
     * The assignments of `Scope.__init__`, which leave every existing scope as it was: the new
     * scope is empty and lies outside the footprints of `childrens` and of `parent`.
     */
    static method Fresh(name: string, parent: Scope?, childrens: seq<Scope>,
                        ghost entries: seq<(string, ScopeTree.Tree)>, ghost below: set<Scope>, ghost outside: set<Scope>)
      returns (scope: Scope)
      requires parent != null ==> parent.Valid()
      requires forall j | 0 <= j < |childrens| :: childrens[j].Valid()
      requires forall j, l | 0 <= j < l < |childrens| :: childrens[j].Repr !! childrens[l].Repr
      requires parent != null ==> forall j | 0 <= j < |childrens| :: childrens[j].Repr !! parent.Repr
      requires entries == Entries(childrens) && below == Footprints(childrens) && outside == Below(parent)
      ensures fresh(scope) && scope.Repr == {scope} && outside !! below
      ensures scope.Valid() && scope.View() == ScopeTree.Tree(map[], map[]) && scope.name == name && scope.parent == parent
      ensures scope.Ready(childrens, entries, below, outside)
    {
      forall j | 0 <= j < |childrens|
        ensures childrens[j].Repr <= below
      {
      }
      scope := new Scope(name, parent);
      forall j | 0 <= j < |childrens|
        ensures childrens[j].Valid() && entries[j] == (childrens[j].name, childrens[j].View())
      {
        Untouched(childrens[j]);
      }
    }

    /**
     * What the loop of `Scope.__init__` needs: this scope is valid, `childrens` are valid scopes
     * with disjoint footprints inside `below`, `entries` are their names and values, and `below`,
     * `outside` and this scope's footprint are disjoint.
     */
    ghost predicate Ready(childrens: seq<Scope>, entries: seq<(string, ScopeTree.Tree)>, below: set<Scope>, outside: set<Scope>)
      reads this, Repr, childrens, below
    {
      && Valid() && below !! Repr && outside !! Repr && outside !! below
      && |entries| == |childrens|
      && (forall j | 0 <= j < |childrens| ::
            childrens[j].Repr <= below && childrens[j].Valid() && entries[j] == (childrens[j].name, childrens[j].View()))
      && (forall j, l | 0 <= j < l < |childrens| :: childrens[j].Repr !! childrens[l].Repr)
    }

    /**
     * The loop of `Scope.__init__` over `childrens`: `add_scope(child.name, child)` for each,
     * where `entries` are the names and values of `childrens`, `below` holds their footprints and
     * `outside` is left alone.
     */
    method AddChildren(childrens: seq<Scope>, ghost entries: seq<(string, ScopeTree.Tree)>, ghost below: set<Scope>, ghost outside: set<Scope>)
      returns (r: Result<()>)
      requires Ready(childrens, entries, below, outside) && Repr == {this}
      modifies this`children, this`Repr, below`children, below`Repr, childrens`parent
      ensures Valid() && Repr <= old(Repr) + below
      ensures forall m | m in outside :: m.rules == old(m.rules) && m.children == old(m.children) && m.Repr == old(m.Repr)
      ensures var added := ScopeTree.AddScopes(old(View()), entries);
        && (r.Ok? <==> added.Ok?)
        && (r.Fail? ==> r.error == added.error)
        && (r.Ok? ==> View() == added.value)
      ensures parent == old(parent)
    {
      ghost var start := View();
      var i := 0;
      while i < |childrens|
        invariant 0 <= i <= |childrens|
        invariant Valid() && Repr <= old(Repr) + below && parent == old(parent)
        invariant forall m | m in outside :: m.rules == old(m.rules) && m.children == old(m.children) && m.Repr == old(m.Repr)
        invariant ScopeTree.AddScopes(start, entries[..i]) == Ok(View())
        invariant forall j | i <= j < |childrens| ::
          && childrens[j].Valid() && childrens[j].Repr == old(childrens[j].Repr) && childrens[j].Repr !! Repr
          && entries[j] == (childrens[j].name, childrens[j].View())
      {
        var added := AddEntry(start, childrens, entries, outside, i);
        if added.Fail? {
          return Fail(added.error);
        }
        i := i + 1;
      }
      assert entries[..i] == entries;
      return Ok(());
    }

    /** One turn of the loop of `__init__`: `add_scope` for the next child. */
    method AddEntry(ghost start: ScopeTree.Tree, childrens: seq<Scope>, ghost entries: seq<(string, ScopeTree.Tree)>, ghost outside: set<Scope>, i: nat)
      returns (r: Result<()>)
      requires Valid() && outside !! Repr && i < |childrens| == |entries|
      requires ScopeTree.AddScopes(start, entries[..i]) == Ok(View())
      requires forall j | i <= j < |childrens| ::
        && childrens[j].Valid() && childrens[j].Repr !! Repr && outside !! childrens[j].Repr
        && entries[j] == (childrens[j].name, childrens[j].View())
      requires forall j, l | i <= j < l < |childrens| :: childrens[j].Repr !! childrens[l].Repr
      modifies Repr`children, Repr`Repr, {childrens[i]}`parent
      ensures Valid() && Repr <= old(Repr) + childrens[i].Repr && parent == old(parent)
      ensures forall m | m in outside :: m.rules == old(m.rules) && m.children == old(m.children) && m.Repr == old(m.Repr)
      ensures r.Fail? ==> ScopeTree.AddScopes(start, entries) == Fail(r.error)
      ensures r.Ok? ==> ScopeTree.AddScopes(start, entries[..i + 1]) == Ok(View())
      ensures forall j | i < j < |childrens| ::
        && childrens[j].Valid() && childrens[j].Repr == old(childrens[j].Repr) && childrens[j].Repr !! Repr
        && entries[j] == (childrens[j].name, childrens[j].View())
    {
      var child := childrens[i];
      assert entries[..i + 1][..i] == entries[..i];
      r := AddScope(child.name, child);
      forall j | i < j < |childrens|
        ensures childrens[j].Valid() && childrens[j].View() == old(childrens[j].View())
      {
        Untouched(childrens[j]);
      }
      if r.Fail? {
        ScopeTree.AddScopesFails(start, entries, i + 1);
      }
    }

    /** The scope that `segs` reaches by child lookups from this one, if any. */
    ghost function Find(segs: seq<string>): (r: Scope?)
      reads this`children, this`Repr, Repr`children, Repr`Repr
      requires Valid()
      ensures r != null ==> r in Repr && r.Repr <= Repr && r.Valid()
      decreases |segs|
    {
      if segs == [] then this
      else if segs[0] !in children then null
      else children[segs[0]].Find(segs[1..])
    }

    /** The scopes met along `segs`, this one first, up to the first missing child. */
    ghost function Trail(segs: seq<string>): (t: seq<Scope>)
      reads this`children, this`Repr, Repr`children, Repr`Repr
      requires Valid()
      ensures 1 <= |t| <= |segs| + 1 && t[0] == this
      ensures forall j | 0 <= j < |t| :: t[j] in Repr && t[j].Repr <= Repr && t[j].Valid()
      ensures forall j | 0 < j < |t| :: this !in t[j].Repr
      decreases |segs|
    {
      if segs == [] || segs[0] !in children then [this]
      else [this] + children[segs[0]].Trail(segs[1..])
    }

    /** `_resolve_scope`: every segment of the path is a child lookup. */
    method ResolveScope(path: string) returns (r: Result<Scope>)
      requires Valid()
      ensures r.Ok? <==> Find(Split(path)) != null
      ensures r.Ok? ==> r.value == Find(Split(path))
      ensures r.Fail? ==> r.error == ScopeNotFound
    {
      var names := Split(path);
      var current := this;
      var i := 0;
      while i < |names|
        invariant 0 <= i <= |names|
        invariant current.Valid()
        invariant Find(names) == current.Find(names[i..])
      {
        assert names[i..][0] == names[i] && names[i..][1..] == names[i + 1..];
        if names[i] !in current.children {
          return Fail(ScopeNotFound);
        }
        current := current.children[names[i]];
        i := i + 1;
      }
      assert names[i..] == [];
      return Ok(current);
    }

    /**
     * `_resolve_path`: a single segment is a leaf of this scope; otherwise the segments
     * before the last are joined again and resolved by `ResolveScope`.
     */
    method ResolvePath(path: string) returns (r: Result<(Scope, string)>)
      requires Valid()
      ensures var (segs, leaf) := ScopeTree.Target(path);
        && (r.Ok? <==> Find(segs) != null)
        && (r.Ok? ==> r.value == (Find(segs), leaf))
        && (r.Fail? ==> r.error == ScopeNotFound)
    {
      var parts := Split(path);
      if |parts| == 1 {
        return Ok((this, parts[0]));
      }
      var scopePath := Join(parts[..|parts| - 1]);
      var resolved := ResolveScope(scopePath);
      match resolved
      case Fail(e) => r := Fail(e);
      case Ok(scope) => r := Ok((scope, parts[|parts| - 1]));
    }

    /** `_resolve_rule`, which `get_rule` returns. */
    method GetRule(path: string) returns (r: Result<Value>)
      requires Valid()
      ensures r == ScopeTree.GetRule(View(), path)
    {
      var resolved := ResolvePath(path);
      FindWalk(this, ScopeTree.Target(path).0);
      if resolved.Fail? {
        return Fail(resolved.error);
      }
      var scope, ruleName := resolved.value.0, resolved.value.1;
      if ruleName !in scope.rules {
        return Fail(RuleNotFound);
      }
      return Ok(scope.rules[ruleName]);
    }

    /** `has_rule`: only RuleNotFound is turned into false. */
    method HasRule(path: string) returns (r: Result<bool>)
      requires Valid()
      ensures r == ScopeTree.HasRule(View(), path)
    {
      var rule := GetRule(path);
      match rule
      case Ok(_) => r := Ok(true);
      case Fail(e) => r := if e == RuleNotFound then Ok(false) else Fail(e);
    }

    /** `get_scope`. */
    method GetScope(path: string) returns (r: Result<Scope>)
      requires Valid()
      ensures r.Ok? <==> ScopeTree.GetScope(View(), path).Ok?
      ensures r.Fail? ==> r.error == ScopeNotFound
      ensures r.Ok? ==> r.value == Find(Split(path))
      ensures r.Ok? ==> r.value in Repr && r.value.Valid() && r.value.View() == ScopeTree.GetScope(View(), path).value
    {
      r := ResolveScope(path);
      FindWalk(this, Split(path));
    }

    /** `has_scope`: ScopeNotFound is turned into false. */
    method HasScope(path: string) returns (b: bool)
      requires Valid()
      ensures b == ScopeTree.HasScope(View(), path)
    {
      var r := ResolveScope(path);
      FindWalk(this, Split(path));
      b := r.Ok?;
    }

    /** `call`: the resolved rule called with the arguments as given. */
    method Call(host: Semantics, path: string, args: seq<Value>) returns (r: Result<RuleResult>)
      requires Valid()
      ensures r == ScopeTree.Call(host, View(), path, args)
    {
      var rule := GetRule(path);
      match rule
      case Fail(e) => r := Fail(e);
      case Ok(f) => r := CallValue(host, f, args);
    }

    /** `add_rule`: sets the leaf rule of the resolved scope; never creates scopes. */
    method AddRule(path: string, rule: Value) returns (r: Result<()>)
      requires Valid()
      modifies Repr`rules
      ensures Valid() && Repr == old(Repr)
      ensures r == (match ScopeTree.AddRule(old(View()), path, rule) case Ok(_) => Ok(()) case Fail(e) => Fail(e))
      ensures r.Fail? ==> View() == old(View())
      ensures r.Ok? ==> View() == ScopeTree.AddRule(old(View()), path, rule).value
    {
      ghost var segs := ScopeTree.Target(path).0;
      AddRuleOutcome(this, path, rule);
      var resolved := ResolvePath(path);
      if resolved.Fail? {
        return Fail(resolved.error);
      }
      var scope, ruleName := resolved.value.0, resolved.value.1;
      scope.rules := scope.rules[ruleName := rule];
      RuleEditedAt(this, scope, segs, ScopeTree.SetRule(ruleName, rule));
      return Ok(());
    }

    /** `remove_rule`: RuleNotFound when the leaf is absent, otherwise deletes it. */
    method RemoveRule(path: string) returns (r: Result<()>)
      requires Valid()
      modifies Repr`rules
      ensures Valid() && Repr == old(Repr)
      ensures r == (match ScopeTree.RemoveRule(old(View()), path) case Ok(_) => Ok(()) case Fail(e) => Fail(e))
      ensures r.Fail? ==> View() == old(View())
      ensures r.Ok? ==> View() == ScopeTree.RemoveRule(old(View()), path).value
    {
      ghost var segs := ScopeTree.Target(path).0;
      RemoveRuleOutcome(this, path);
      var resolved := ResolvePath(path);
      if resolved.Fail? {
        return Fail(resolved.error);
      }
      var scope, ruleName := resolved.value.0, resolved.value.1;
      if ruleName !in scope.rules {
        return Fail(RuleNotFound);
      }
      scope.rules := scope.rules - {ruleName};
      RuleEditedAt(this, scope, segs, ScopeTree.DelRule(ruleName));
      return Ok(());
    }

    /**
     * `add_scope`: links `s` under the leaf name of the resolved scope, replacing any child
     * of that name, and makes the resolved scope its parent; never creates scopes.
     */
    method AddScope(path: string, s: Scope) returns (r: Result<()>)
      requires Valid() && s.Valid() && s.Repr !! Repr
      modifies Repr`children, Repr`Repr, s`parent
      ensures Valid() && s.Valid() && s.View() == old(s.View())
      ensures r == (match ScopeTree.AddScope(old(View()), path, old(s.View())) case Ok(_) => Ok(()) case Fail(e) => Fail(e))
      ensures r.Fail? ==> View() == old(View()) && Repr == old(Repr) && s.parent == old(s.parent)
      ensures r.Ok? ==> View() == ScopeTree.AddScope(old(View()), path, old(s.View())).value
      ensures r.Ok? ==> s.parent == old(Find(ScopeTree.Target(path).0)) && s.Repr <= Repr <= old(Repr) + s.Repr
      ensures r.Ok? ==> Repr == old(Repr) - (if old(Find(Split(path))) == null then {} else old(Find(Split(path)).Repr)) + s.Repr
      ensures r.Ok? && old(Find(Split(path))) != null ==>
        old(Find(Split(path))).Valid() && old(Find(Split(path))).View() == old(Find(Split(path)).View())
      ensures forall m | m in old(Repr) && m !in Repr :: m.rules == old(m.rules) && m.children == old(m.children) && m.Repr == old(m.Repr)
    {
      ghost var (segs, leaf) := ScopeTree.Target(path);
      ScopeTree.TargetCovers(path);
      FindChild(this, segs, leaf);
      ghost var detached := Find(Split(path));
      AddScopeOutcome(this, path, s.View());
      var resolved := ResolvePath(path);
      Untouched(s);
      UntouchedFind(this, segs);
      Untouched(this);
      if detached != null {
        Untouched(detached);
      }
      if resolved.Fail? {
        return Fail(resolved.error);
      }
      var parentScope, childName := resolved.value.0, resolved.value.1;
      assert detached == if childName in parentScope.children then parentScope.children[childName] else null;
      LinkAt(segs, parentScope, childName, s);
      return Ok(());
    }

    /** `add_scope` once the path has been resolved to `target`, the scope that `segs` reaches. */
    method LinkAt(ghost segs: seq<string>, target: Scope, k: string, s: Scope)
      requires Valid() && s.Valid() && s.Repr !! Repr && target == Find(segs)
      modifies Repr`children, Repr`Repr, s`parent
      ensures Valid() && s.Valid() && s.View() == old(s.View())
      ensures View() == ScopeTree.UpdateAt(old(View()), segs, ScopeTree.SetChild(k, old(s.View())))
      ensures s.parent == target
      ensures Repr == old(Repr) - (if k in old(target.children) then old(target.children[k].Repr) else {}) + s.Repr
      ensures k in old(target.children) ==>
        old(target.children[k]).Valid() && old(target.children[k]).View() == old(target.children[k].View())
      ensures forall m | m in old(Repr) && m !in Repr :: m.rules == old(m.rules) && m.children == old(m.children) && m.Repr == old(m.Repr)
    {
      ghost var trail := Trail(segs);
      FindTrail(this, segs);
      TrailNesting(this, segs);
      ghost var dropped := if k in target.children then target.children[k].Repr else {};
      TrailOutside(trail, dropped);
      ghost var child := if k in target.children then target.children[k] else this;
      target.Attach(k, s, trail, dropped);
      LinkedAt(this, segs, target, k, s, dropped);
      if k in old(target.children) {
        Untouched(child);
      }
    }

    /**
     * The two assignments of `add_scope` on the resolved scope, with the footprints of the
     * scopes on the way to it (`trail`) updated to match.
     */
    method Attach(k: string, s: Scope, ghost trail: seq<Scope>, ghost dropped: set<Scope>)
      requires s !in trail
      modifies this`children, s`parent, trail`Repr
      ensures children == old(children)[k := s] && s.parent == this
      ensures forall m | m in trail :: m.Repr == old(m.Repr) - dropped + old(s.Repr)
    {
      children := children[k := s];
      s.parent := this;
      ghost var added := s.Repr;
      forall m | m in trail {
        m.Repr := m.Repr - dropped + added;
      }
    }

    /** `remove_scope`: ScopeNotFound when the leaf child is absent, otherwise unlinks it. */
    method RemoveScope(path: string) returns (r: Result<()>)
      requires Valid()
      modifies Repr`children, Repr`Repr
      ensures Valid() && Repr <= old(Repr)
      ensures r == (match ScopeTree.RemoveScope(old(View()), path) case Ok(_) => Ok(()) case Fail(e) => Fail(e))
      ensures r.Fail? ==> View() == old(View()) && Repr == old(Repr)
      ensures r.Ok? ==> View() == ScopeTree.RemoveScope(old(View()), path).value
      ensures r.Ok? ==> old(Find(Split(path))) != null && Repr == old(Repr) - old(Find(Split(path)).Repr)
      ensures r.Ok? ==> old(Find(Split(path))).Valid() && old(Find(Split(path))).View() == old(Find(Split(path)).View())
      ensures forall m | m in old(Repr) && m !in Repr :: m.rules == old(m.rules) && m.children == old(m.children) && m.Repr == old(m.Repr)
    {
      ghost var (segs, leaf) := ScopeTree.Target(path);
      ScopeTree.TargetCovers(path);
      FindChild(this, segs, leaf);
      ghost var detached := Find(Split(path));
      RemoveScopeOutcome(this, path);
      var resolved := ResolvePath(path);
      UntouchedFind(this, segs);
      Untouched(this);
      if detached != null {
        Untouched(detached);
      }
      if resolved.Fail? {
        return Fail(resolved.error);
      }
      var parentScope, childName := resolved.value.0, resolved.value.1;
      if childName !in parentScope.children {
        return Fail(ScopeNotFound);
      }
      assert detached == parentScope.children[childName];
      UnlinkAt(segs, parentScope, childName);
      return Ok(());
    }

    /** `remove_scope` once the path has been resolved to `target`, the scope that `segs` reaches. */
    method UnlinkAt(ghost segs: seq<string>, target: Scope, k: string)
      requires Valid() && target == Find(segs) && k in target.children
      modifies Repr`children, Repr`Repr
      ensures Valid() && Repr == old(Repr) - old(target.children[k].Repr)
      ensures View() == ScopeTree.UpdateAt(old(View()), segs, ScopeTree.DelChild(k))
      ensures old(target.children[k]).Valid() && old(target.children[k]).View() == old(target.children[k].View())
      ensures forall m | m in old(Repr) && m !in Repr :: m.rules == old(m.rules) && m.children == old(m.children) && m.Repr == old(m.Repr)
    {
      ghost var trail := Trail(segs);
      FindTrail(this, segs);
      TrailNesting(this, segs);
      ghost var child := target.children[k];
      ghost var dropped := child.Repr;
      TrailOutside(trail, dropped);
      target.Detach(k, trail, dropped);
      UnlinkedAt(this, segs, target, k, dropped);
      Untouched(child);
    }

    /** The deletion of `remove_scope` on the resolved scope, with the footprints on the way to it updated. */
    method Detach(k: string, ghost trail: seq<Scope>, ghost dropped: set<Scope>)
      modifies this`children, trail`Repr
      ensures children == old(children) - {k}
      ensures forall m | m in trail :: m.Repr == old(m.Repr) - dropped
    {
      children := children - {k};
      forall m | m in trail {
        m.Repr := m.Repr - dropped;
      }
    }
  }

  /** The scopes that `Create` may change below `parent`. */
  ghost function Below(parent: Scope?): set<Scope>
    reads parent
  {
    if parent == null then {} else parent.Repr
  }

  /** The footprints of `cs` together. */
  ghost function Footprints(cs: seq<Scope>): set<Scope>
    reads set c | c in cs
  {
    set c, o | c in cs && o in c.Repr :: o
  }

  /** The local names and values of `cs`, as `add_scope(child.name, child)` links them. */
  ghost function Entries(cs: seq<Scope>): (es: seq<(string, ScopeTree.Tree)>)
    reads cs, set c, o | c in cs && o in c.Repr :: o
    requires forall j | 0 <= j < |cs| :: cs[j].Valid()
    ensures |es| == |cs| && forall j | 0 <= j < |cs| :: es[j] == (cs[j].name, cs[j].View())
    decreases |cs|
  {
    if cs == [] then []
    else [(cs[0].name, cs[0].View())] + Entries(cs[1..])
  }

  /** The outcome of `ScopeTree.AddRule` on the value of `n`, by the scope that the path reaches. */
  lemma AddRuleOutcome(n: Scope, path: string, rule: Value)
    requires n.Valid()
    ensures var (segs, leaf) := ScopeTree.Target(path);
      var f := n.Find(segs);
      && (f != null ==> f.View().rules == f.rules)
      && ScopeTree.AddRule(n.View(), path, rule) ==
           if f == null then Fail(ScopeNotFound) else Ok(ScopeTree.UpdateAt(n.View(), segs, ScopeTree.SetRule(leaf, rule)))
  {
    FindWalk(n, ScopeTree.Target(path).0);
  }

  /** The outcome of `ScopeTree.RemoveRule` on the value of `n`, by the scope that the path reaches. */
  lemma RemoveRuleOutcome(n: Scope, path: string)
    requires n.Valid()
    ensures var (segs, leaf) := ScopeTree.Target(path);
      var f := n.Find(segs);
      && (f != null ==> f.View().rules == f.rules)
      && ScopeTree.RemoveRule(n.View(), path) ==
           if f == null then Fail(ScopeNotFound)
           else if leaf !in f.rules then Fail(RuleNotFound)
           else Ok(ScopeTree.UpdateAt(n.View(), segs, ScopeTree.DelRule(leaf)))
  {
    FindWalk(n, ScopeTree.Target(path).0);
  }

  /** The outcome of `ScopeTree.AddScope` on the value of `n`, by the scope that the path reaches. */
  lemma AddScopeOutcome(n: Scope, path: string, child: ScopeTree.Tree)
    requires n.Valid()
    ensures var (segs, leaf) := ScopeTree.Target(path);
      ScopeTree.AddScope(n.View(), path, child) ==
        if n.Find(segs) == null then Fail(ScopeNotFound) else Ok(ScopeTree.UpdateAt(n.View(), segs, ScopeTree.SetChild(leaf, child)))
  {
    FindWalk(n, ScopeTree.Target(path).0);
  }

  /** The outcome of `ScopeTree.RemoveScope` on the value of `n`, by the scope that the path reaches. */
  lemma RemoveScopeOutcome(n: Scope, path: string)
    requires n.Valid()
    ensures var (segs, leaf) := ScopeTree.Target(path);
      var f := n.Find(segs);
      && (f != null ==> (leaf in f.View().children <==> leaf in f.children))
      && ScopeTree.RemoveScope(n.View(), path) ==
           if f == null then Fail(ScopeNotFound)
           else if leaf !in f.children then Fail(ScopeNotFound)
           else Ok(ScopeTree.UpdateAt(n.View(), segs, ScopeTree.DelChild(leaf)))
  {
    var (segs, leaf) := ScopeTree.Target(path);
    FindWalk(n, segs);
    if n.Find(segs) != null {
      Descend(n.Find(segs), leaf);
    }
  }

  /** What a valid scope says about its child `k`, and how its value shows it. */
  lemma Descend(n: Scope, k: string)
    requires n.Valid()
    ensures k in n.View().children <==> k in n.children
    ensures k in n.children ==>
      && n.children[k] in n.Repr && n.children[k].Repr <= n.Repr && n.children[k].Valid()
      && n.View().children[k] == n.children[k].View()
  {
  }

  /** Walking the value of a scope reaches the value of the scope that `Find` reaches. */
  lemma {:induction false} FindWalk(n: Scope, segs: seq<string>)
    requires n.Valid()
    ensures ScopeTree.Walk(n.View(), segs) ==
      if n.Find(segs) == null then Fail(ScopeNotFound) else Ok(n.Find(segs).View())
    decreases |segs|
  {
    if segs != [] {
      Descend(n, segs[0]);
      if segs[0] in n.children {
        FindWalk(n.children[segs[0]], segs[1..]);
      }
    }
  }

  /** `Find` succeeds exactly when the trail is complete, and then reaches its last scope. */
  lemma {:induction false} FindTrail(n: Scope, segs: seq<string>)
    requires n.Valid()
    ensures n.Find(segs) != null <==> |n.Trail(segs)| == |segs| + 1
    ensures n.Find(segs) != null ==> n.Find(segs) == n.Trail(segs)[|segs|]
    decreases |segs|
  {
    if segs != [] && segs[0] in n.children {
      FindTrail(n.children[segs[0]], segs[1..]);
    }
  }

  /** Each scope of `t` lies strictly inside the footprints of the scopes before it. */
  ghost predicate Descending(t: seq<Scope>)
    reads set x | x in t
  {
    forall i, j | 0 <= i < j < |t| :: t[j] in t[i].Repr && t[j].Repr <= t[i].Repr && t[i] !in t[j].Repr
  }

  /** Each scope of a trail lies strictly below the scopes before it. */
  lemma {:induction false} TrailNesting(n: Scope, segs: seq<string>)
    requires n.Valid()
    ensures Descending(n.Trail(segs))
    decreases |segs|
  {
    if segs != [] && segs[0] in n.children {
      var c := n.children[segs[0]];
      TrailNesting(c, segs[1..]);
      var t, u := n.Trail(segs), c.Trail(segs[1..]);
      assert t == [n] + u;
      forall i, j | 0 <= i < j < |t|
        ensures t[j] in t[i].Repr && t[j].Repr <= t[i].Repr && t[i] !in t[j].Repr
      {
        assert t[j] == u[j - 1];
        if i > 0 {
          assert t[i] == u[i - 1];
        } else {
          assert t[j] in c.Repr;
          assert t[j].Repr <= c.Repr;
          assert c.Repr <= n.Repr;
          assert n !in t[j].Repr;
        }
      }
    }
  }

  /** No scope of a trail lies in a footprint that its last scope holds without holding itself. */
  lemma TrailOutside(t: seq<Scope>, dropped: set<Scope>)
    requires Descending(t) && t != []
    requires dropped <= t[|t| - 1].Repr && t[|t| - 1] !in dropped
    ensures forall m | m in t :: m !in dropped
  {
    forall i | 0 <= i < |t| - 1
      ensures t[i] !in dropped
    {
      assert t[i] !in t[|t| - 1].Repr;
    }
  }

  /** The path `segs + [k]` reaches child `k` of the scope that `segs` reaches. */
  lemma {:induction false} FindChild(n: Scope, segs: seq<string>, k: string)
    requires n.Valid()
    ensures n.Find(segs + [k]) ==
      if n.Find(segs) == null || k !in n.Find(segs).children then null else n.Find(segs).children[k]
    decreases |segs|
  {
    if segs == [] {
      assert [k][1..] == [];
    } else if segs[0] in n.children {
      assert (segs + [k])[0] == segs[0] && (segs + [k])[1..] == segs[1..] + [k];
      FindChild(n.children[segs[0]], segs[1..], k);
    }
  }

  /** A scope whose whole footprint kept its fields keeps its validity and its value. */
  twostate lemma {:induction false} Untouched(n: Scope)
    requires old(n.Valid())
    requires forall m | m in old(n.Repr) :: m.rules == old(m.rules) && m.children == old(m.children) && m.Repr == old(m.Repr)
    ensures n.Valid() && n.View() == old(n.View())
    decreases old(n.Repr)
  {
    forall k | k in n.children
      ensures n.children[k].Valid() && n.children[k].View() == old(n.children[k].View())
    {
      Untouched(n.children[k]);
    }
  }

  /** ... and every path from it reaches the same scope. */
  twostate lemma {:induction false} UntouchedFind(n: Scope, new segs: seq<string>)
    requires old(n.Valid())
    requires forall m | m in old(n.Repr) :: m.rules == old(m.rules) && m.children == old(m.children) && m.Repr == old(m.Repr)
    ensures n.Valid() && n.Find(segs) == old(n.Find(segs))
    decreases |segs|
  {
    Untouched(n);
    if segs != [] && segs[0] in n.children {
      UntouchedFind(n.children[segs[0]], segs[1..]);
    }
  }

  /** A rule edit of one scope's own dictionary gives the edited value of that scope. */
  twostate lemma {:induction false} RulesEdited(n: Scope, new e: ScopeTree.Edit)
    requires e.OnRules() && old(n.Valid())
    requires n.rules == ScopeTree.Apply(old(n.View()), e).rules
    requires n.children == old(n.children) && n.Repr == old(n.Repr)
    requires forall m | m in old(n.Repr) && m != n :: m.rules == old(m.rules) && m.children == old(m.children) && m.Repr == old(m.Repr)
    ensures n.Valid() && n.View() == ScopeTree.Apply(old(n.View()), e)
  {
    forall k | k in n.children
      ensures n.children[k].Valid() && n.children[k].View() == old(n.children[k].View())
    {
      Untouched(n.children[k]);
    }
  }

  /** A rule edit of the scope that `segs` reaches, and no other change, updates the value at `segs`. */
  twostate lemma RuleEditedAt(n: Scope, new target: Scope, new segs: seq<string>, new e: ScopeTree.Edit)
    requires e.OnRules() && old(n.Valid()) && target == old(n.Find(segs))
    requires forall m | m in old(n.Repr) :: m.children == old(m.children) && m.Repr == old(m.Repr)
    requires forall m | m in old(n.Repr) && m != target :: m.rules == old(m.rules)
    requires target.rules == ScopeTree.Apply(old(target.View()), e).rules
    ensures n.Valid() && n.View() == ScopeTree.UpdateAt(old(n.View()), segs, e)
  {
    RulesEdited(target, e);
    Edited(n, segs, e, {}, {});
  }

  /** How the first step of `segs` from `n` looked before the edit. */
  twostate lemma OldStep(n: Scope, new segs: seq<string>)
    requires old(n.Valid()) && segs != [] && old(n.Find(segs)) != null
    ensures old(segs[0] in n.children)
    ensures old(n.Find(segs)) == old(n.children[segs[0]].Find(segs[1..]))
    ensures old(n.Trail(segs)) == [n] + old(n.children[segs[0]].Trail(segs[1..]))
    ensures old(n.children[segs[0]].Valid()) && old(n.children[segs[0]].Repr) <= old(n.Repr)
    ensures n !in old(n.children[segs[0]].Repr)
    ensures old(n.View()).children[segs[0]] == old(n.children[segs[0]].View())
  {
  }

  /** The children other than `k` of a scope whose other scopes kept their fields are unchanged. */
  twostate lemma SiblingsUntouched(n: Scope, new k: string)
    requires old(n.Valid()) && k in old(n.children) && n.children == old(n.children)
    requires forall m | m in old(n.Repr) && m != n && m !in old(n.children[k].Repr) ::
      m.rules == old(m.rules) && m.children == old(m.children) && m.Repr == old(m.Repr)
    ensures forall j | j in n.children && j != k ::
      n.children[j].Valid() && n.children[j].View() == old(n.children[j].View()) && n.children[j].Repr == old(n.children[j].Repr)
  {
    forall j | j in n.children && j != k
      ensures n.children[j].Valid() && n.children[j].View() == old(n.children[j].View())
    {
      Untouched(n.children[j]);
    }
  }

  /** A scope whose child `k` alone has changed, with its footprint changed to match, is valid. */
  twostate lemma Reassemble(n: Scope, new k: string, new dropped: set<Scope>, new added: set<Scope>)
    requires old(n.Valid()) && k in old(n.children)
    requires n.children == old(n.children)
    requires n.Repr == old(n.Repr) - dropped + added
    requires n.children[k].Valid() && n.children[k].Repr == old(n.children[k].Repr) - dropped + added
    requires dropped <= old(n.children[k].Repr) && added !! old(n.Repr)
    requires forall j | j in n.children && j != k :: n.children[j].Valid() && n.children[j].Repr == old(n.children[j].Repr)
    ensures n.Valid()
  {
  }

  /** ... and its value has that child's new value under `k`. */
  twostate lemma Regraft(n: Scope, new k: string)
    requires old(n.Valid()) && n.Valid() && k in old(n.children)
    requires n.rules == old(n.rules) && n.children == old(n.children)
    requires forall j | j in n.children && j != k :: n.children[j].View() == old(n.children[j].View())
    ensures n.View() == old(n.View()).(children := old(n.View()).children[k := n.children[k].View()])
  {
    var now, before := n.View().children, old(n.View()).children;
    var after := before[k := n.children[k].View()];
    assert now.Keys == n.children.Keys == before.Keys == after.Keys;
    forall j | j in now
      ensures now[j] == after[j]
    {
      if j != k {
        assert now[j] == n.children[j].View() && before[j] == old(n.children[j].View());
      }
    }
    assert now == after;
  }

  /**
   * An edit of the scope that `segs` reaches from `n`, after which every scope on the way
   * there has dropped `dropped` from its footprint and gained `added`, and nothing else has
   * changed, is the update of the value of `n` at `segs`.
   */
  twostate lemma {:induction false} Edited(n: Scope, new segs: seq<string>, new e: ScopeTree.Edit, new dropped: set<Scope>, new added: set<Scope>)
    requires old(n.Valid()) && old(n.Find(segs)) != null
    requires added !! old(n.Repr)
    requires dropped <= old(n.Find(segs).Repr) && old(n.Find(segs)) !in dropped
    requires forall m | m in old(n.Repr) && m != old(n.Find(segs)) :: m.rules == old(m.rules) && m.children == old(m.children)
    requires forall m | m in old(n.Repr) && m !in old(n.Trail(segs)) :: m.Repr == old(m.Repr)
    requires forall m | m in old(n.Trail(segs)) :: m.Repr == old(m.Repr) - dropped + added
    requires old(n.Find(segs)).Valid() && old(n.Find(segs)).View() == ScopeTree.Apply(old(n.Find(segs).View()), e)
    ensures n.Valid() && n.View() == ScopeTree.UpdateAt(old(n.View()), segs, e)
    decreases |segs|
  {
    if segs != [] {
      var k := segs[0];
      OldStep(n, segs);
      var c := n.children[k];
      Edited(c, segs[1..], e, dropped, added);
      SiblingsUntouched(n, k);
      Reassemble(n, k, dropped, added);
      Regraft(n, k);
    }
  }

  /** Linking `s` as child `k` of the scope that `segs` reaches, with the footprints on the way there updated, ... */
  twostate lemma LinkedAt(n: Scope, new segs: seq<string>, new target: Scope, new k: string, new s: Scope, new dropped: set<Scope>)
    requires old(allocated(s)) && old(n.Valid()) && old(s.Valid()) && old(s.Repr) !! old(n.Repr)
    requires target == old(n.Find(segs)) && old(Descending(n.Trail(segs))) && |old(n.Trail(segs))| == |segs| + 1 && old(n.Trail(segs))[|segs|] == target
    requires dropped == if k in old(target.children) then old(target.children[k].Repr) else {}
    requires target.children == old(target.children)[k := s]
    requires forall m: Scope | old(allocated(m)) && m != target :: m.children == old(m.children)
    requires forall m: Scope | old(allocated(m)) :: m.rules == old(m.rules)
    requires forall m: Scope | old(allocated(m)) && m !in old(n.Trail(segs)) :: m.Repr == old(m.Repr)
    requires forall m | m in old(n.Trail(segs)) :: m.Repr == old(m.Repr) - dropped + old(s.Repr)
    ensures s.Valid() && s.View() == old(s.View())
    ensures n.Valid() && n.View() == ScopeTree.UpdateAt(old(n.View()), segs, ScopeTree.SetChild(k, old(s.View())))
  {
    ChildSet(target, k, s, dropped);
    Edited(n, segs, ScopeTree.SetChild(k, old(s.View())), dropped, old(s.Repr));
  }

  /** Linking `s` as child `k` of `n`, in place of any child of that name, gives the edited value of `n`. */
  twostate lemma ChildSet(n: Scope, new k: string, new s: Scope, new dropped: set<Scope>)
    requires old(allocated(s)) && old(n.Valid()) && old(s.Valid()) && old(s.Repr) !! old(n.Repr)
    requires dropped == if k in old(n.children) then old(n.children[k].Repr) else {}
    requires n.children == old(n.children)[k := s] && n.rules == old(n.rules)
    requires n.Repr == old(n.Repr) - dropped + old(s.Repr)
    requires forall m | m in old(n.Repr) && m != n :: m.rules == old(m.rules) && m.children == old(m.children) && m.Repr == old(m.Repr)
    requires forall m | m in old(s.Repr) :: m.rules == old(m.rules) && m.children == old(m.children) && m.Repr == old(m.Repr)
    ensures s.Valid() && s.View() == old(s.View())
    ensures n.Valid() && n.View() == ScopeTree.Apply(old(n.View()), ScopeTree.SetChild(k, old(s.View())))
  {
    ChildSetValid(n, k, s, dropped);
    var now, before := n.View().children, old(n.View()).children[k := old(s.View())];
    assert now == before by {
      assert now.Keys == before.Keys;
      forall j | j in now
        ensures now[j] == before[j]
      {
        if j != k {
          assert now[j] == n.children[j].View() && before[j] == old(n.children[j].View());
        }
      }
    }
  }

  /** The validity half of `ChildSet`, with the siblings of `k` unchanged. */
  twostate lemma ChildSetValid(n: Scope, new k: string, new s: Scope, new dropped: set<Scope>)
    requires old(allocated(s)) && old(n.Valid()) && old(s.Valid()) && old(s.Repr) !! old(n.Repr)
    requires dropped == if k in old(n.children) then old(n.children[k].Repr) else {}
    requires n.children == old(n.children)[k := s] && n.rules == old(n.rules)
    requires n.Repr == old(n.Repr) - dropped + old(s.Repr)
    requires forall m | m in old(n.Repr) && m != n :: m.rules == old(m.rules) && m.children == old(m.children) && m.Repr == old(m.Repr)
    requires forall m | m in old(s.Repr) :: m.rules == old(m.rules) && m.children == old(m.children) && m.Repr == old(m.Repr)
    ensures s.Valid() && s.View() == old(s.View())
    ensures n.Valid()
    ensures forall j | j in n.children && j != k :: n.children[j].Valid() && n.children[j].View() == old(n.children[j].View())
  {
    Untouched(s);
    forall j | j in n.children && j != k
      ensures n.children[j].Valid() && n.children[j].View() == old(n.children[j].View())
    {
      Untouched(n.children[j]);
    }
  }

  /** Unlinking child `k` of the scope that `segs` reaches, with the footprints on the way there updated. */
  twostate lemma UnlinkedAt(n: Scope, new segs: seq<string>, new target: Scope, new k: string, new dropped: set<Scope>)
    requires old(n.Valid()) && target == old(n.Find(segs))
    requires old(Descending(n.Trail(segs))) && |old(n.Trail(segs))| == |segs| + 1 && old(n.Trail(segs))[|segs|] == target
    requires k in old(target.children) && dropped == old(target.children[k].Repr)
    requires target.children == old(target.children) - {k}
    requires forall m: Scope | old(allocated(m)) && m != target :: m.children == old(m.children)
    requires forall m: Scope | old(allocated(m)) :: m.rules == old(m.rules)
    requires forall m: Scope | old(allocated(m)) && m !in old(n.Trail(segs)) :: m.Repr == old(m.Repr)
    requires forall m | m in old(n.Trail(segs)) :: m.Repr == old(m.Repr) - dropped
    ensures n.Valid() && n.View() == ScopeTree.UpdateAt(old(n.View()), segs, ScopeTree.DelChild(k))
  {
    ChildDeleted(target, k, dropped);
    Edited(n, segs, ScopeTree.DelChild(k), dropped, {});
  }

  /** Deleting child `k` of `n` gives the edited value of `n`. */
  twostate lemma ChildDeleted(n: Scope, new k: string, new dropped: set<Scope>)
    requires old(n.Valid()) && k in old(n.children) && dropped == old(n.children[k].Repr)
    requires n.children == old(n.children) - {k} && n.rules == old(n.rules)
    requires n.Repr == old(n.Repr) - dropped
    requires forall m | m in old(n.Repr) && m != n :: m.rules == old(m.rules) && m.children == old(m.children) && m.Repr == old(m.Repr)
    ensures n.Valid() && n.View() == ScopeTree.Apply(old(n.View()), ScopeTree.DelChild(k))
  {
    forall j | j in n.children
      ensures n.children[j].Valid() && n.children[j].View() == old(n.children[j].View())
    {
      Untouched(n.children[j]);
    }
    assert n.Valid();
    var now, before := n.View().children, old(n.View()).children - {k};
    assert now == before by {
      assert now.Keys == before.Keys;
      forall j | j in now
        ensures now[j] == before[j]
      {
        assert now[j] == n.children[j].View() && before[j] == old(n.children[j].View());
      }
    }
  }
}
