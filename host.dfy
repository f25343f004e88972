/**
 * The host-language world that the registries store and call: values, callables, the
 * results a rule can return, and the exceptions the registries raise.
 *
 * A rule is an opaque callable. The behaviour of functions written in host code is not
 * known to the model; it is supplied as a parameter (`Semantics`) wherever a rule is called.
 */
module Host {

  /** A host value: a callable object, or any other object (identified by a number). */
  datatype Value = Data(id: nat) | Fn(code: Callable)

  /** The callables a registry can hold. */
  datatype Callable =
    /** A function written in host code; what it returns is given by a `Semantics`. */
    | Native(id: nat)
    /** One of the default methods of the base thyros `Policy`, which return `True`. */
    | DefaultAction
    /** The closure built by `_get_method(obj, method)`: calls `method(obj, *args)`. */
    | SyncWrapper(instance: Value, target: Callable)
    /** The closure built by scutum's `_get_async_method(obj, method)`. */
    | AsyncWrapper(instance: Value, target: Callable)

  /**
   * What calling a rule produces: a `bool`, a `Response` (only its `allowed` flag is
   * visible), or any other object, of which only its truth value (`bool(x)`) matters.
   */
  datatype RuleResult = Bool(b: bool) | Resp(allowed: bool) | Other(truthy: bool)

  /** The return values of host-code functions, by function and positional arguments. */
  type Semantics = (nat, seq<Value>) -> RuleResult

  /** The exceptions raised by the registries. */
  datatype Error =
    | TypeError           // a non-callable registered or called, a non-policy class registered
    | ScopeNotFound       // ScopeNotFoundException
    | RuleNotFound        // RuleNotFoundException
    | ActionNotFound      // ActionNotFoundException
    | KeyError            // a dictionary indexed with an absent key
    | AuthorizationError  // AuthorizationException raised by a gate
    | ResponseDenied      // whatever a denying Response's authorize() raises

  datatype Result<T> = Ok(value: T) | Fail(error: Error)

  predicate IsCallable(v: Value) {
    v.Fn?
  }

  /** What a call of `c` with positional arguments `args` returns. */
  function Invoke(host: Semantics, c: Callable, args: seq<Value>): RuleResult
    decreases c
  {
    match c
    case Native(id) => host(id, args)
    case DefaultAction => Bool(true)
    case SyncWrapper(obj, target) => Invoke(host, target, [obj] + args)
    // calling an async function without awaiting it yields a coroutine object,
    // which is neither a bool nor a Response and is truthy
    case AsyncWrapper(_, _) => Other(true)
  }

  /** `value(*args)`: calling a non-callable raises TypeError. */
  function CallValue(host: Semantics, v: Value, args: seq<Value>): (r: Result<RuleResult>)
    ensures r.Fail? <==> !IsCallable(v)
    ensures r.Fail? ==> r.error == TypeError
    ensures IsCallable(v) ==> r.value == Invoke(host, v.code, args)
  {
    match v
    case Fn(c) => Ok(Invoke(host, c, args))
    case Data(_) => Fail(TypeError)
  }

  /** `bool(x)` for a result that is not a Response. */
  function Truthy(r: RuleResult): bool
    requires !r.Resp?
  {
    match r
    case Bool(b) => b
    case Other(t) => t
  }

  /** `Response.authorize()`: raises exactly when the response does not allow. */
  function ResponseAuthorize(allowed: bool): (r: Result<()>)
    ensures r.Ok? <==> allowed
    ensures r.Fail? ==> r.error == ResponseDenied
  {
    if allowed then Ok(()) else Fail(ResponseDenied)
  }

  /** A wrapper forwards its arguments unchanged after the bound instance. */
  lemma WrapperForwards(host: Semantics, obj: Value, target: Callable, user: Value, args: seq<Value>)
    ensures Invoke(host, SyncWrapper(obj, target), [user] + args) == Invoke(host, target, [obj, user] + args)
  {
    assert [obj] + ([user] + args) == [obj, user] + args;
  }
}
