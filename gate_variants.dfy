/**
 * How the two gates answer differently from the same registered state: what an unknown action
 * raises, what `denied` and `authorize` make of a result that is not a Response, and where
 * they agree.
 */
module GateVariants {
  import opened Host
  import opened Registry
  import Scutum = ScutumGate
  import Thyros = ThyrosGate

  /**
   * Both `check`s raise ActionNotFound for an unknown action, but only scutum's other queries
   * do: thyros's raise KeyError.
   */
  lemma UnknownAction(host: Semantics, s: GateState, action: string, user: Value, args: seq<Value>)
    requires Valid(s) && !Has(s, action)
    ensures Check(host, s, action, user, args) == Fail(ActionNotFound)
    ensures Scutum.Allowed(host, s, action, user, args) == Fail(ActionNotFound)
    ensures Scutum.Denied(host, s, action, user, args) == Fail(ActionNotFound)
    ensures Scutum.Authorize(host, s, action, user, args) == Fail(ActionNotFound)
    ensures Thyros.Allowed(host, s, action, user, args) == Fail(KeyError)
    ensures Thyros.Denied(host, s, action, user, args) == Fail(KeyError)
    ensures Thyros.Authorize(host, s, action, user, args) == Fail(KeyError)
  {
  }

  /** For a known action both `allowed`s give the same verdict, and so do both `any`s. */
  lemma AllowedAgree(host: Semantics, s: GateState, actions: seq<string>, user: Value, args: seq<Value>)
    requires Valid(s) && forall i | 0 <= i < |actions| :: Has(s, actions[i])
    ensures forall i | 0 <= i < |actions| ::
      var a, b := Scutum.Allowed(host, s, actions[i], user, args), Thyros.Allowed(host, s, actions[i], user, args);
      a.Ok? && b.Ok? && a.value == Truthy(b.value)
    ensures Scutum.Any(host, s, actions, user, args) == Thyros.Any(host, s, actions, user, args)
    ensures Scutum.None(host, s, actions, user, args) == Thyros.None(host, s, actions, user, args)
  {
  }

  /** For a rule that returns a bool, scutum's `denied` negates it and thyros's returns it. */
  lemma DeniedOnBool(host: Semantics, s: GateState, action: string, user: Value, args: seq<Value>, b: bool)
    requires Valid(s) && Has(s, action) && Raw(host, s, action, user, args) == Bool(b)
    ensures Scutum.Denied(host, s, action, user, args) == Ok(!b)
    ensures Thyros.Denied(host, s, action, user, args) == Ok(Bool(b))
  {
  }

  /**
   * A falsy result that is neither a bool nor a Response: scutum's `check` turns it into
   * `False` and `authorize` raises, thyros's `authorize` sees no `bool` and passes.
   */
  lemma FalsyObjectAuthorize(host: Semantics, s: GateState, action: string, user: Value, args: seq<Value>)
    requires Valid(s) && Has(s, action) && Raw(host, s, action, user, args) == Other(false)
    ensures Scutum.Authorize(host, s, action, user, args) == Fail(AuthorizationError)
    ensures Thyros.Authorize(host, s, action, user, args) == Ok(())
  {
  }

  /** Apart from such objects, both `authorize`s pass and fail on the same results. */
  lemma AuthorizeAgree(host: Semantics, s: GateState, action: string, user: Value, args: seq<Value>)
    requires Valid(s) && Has(s, action) && !Raw(host, s, action, user, args).Other?
    ensures Scutum.Authorize(host, s, action, user, args) == Thyros.Authorize(host, s, action, user, args)
  {
  }
}
