/** The `Function.prototype.before` / `after` combinators. A JavaScript
    function is modelled as a total function from a state, a receiver (`this`)
    and an argument list to how the call completes. */
module Aop {
  import opened Wrappers

  type Callable<!S, -R, -A, V, E> = (S, R, A) -> Completion<S, V, E>

  /** One call of the function `original.before(beforeFunc)` returns. The hook
      answers `Some` for a truthy result and `None` for `null`/`undefined`. */
  function CallBefore<S, R, A, V, E>(
    original: Callable<S, R, A, V, E>,
    beforeFunc: Callable<S, R, A, Option<V>, E>,
    s: S, self: R, args: A): (r: Completion<S, V, E>)
    // a truthy hook result is returned as it is
    ensures var h := beforeFunc(s, self, args);
            h.Return? && h.value.Some? ==> r == Return(h.state, h.value.value)
    // a falsy one hands the call, same receiver and arguments, to the original
    ensures var h := beforeFunc(s, self, args);
            h.Return? && h.value.None? ==> r == original(h.state, self, args)
    // a throwing hook throws out of the wrapper
    ensures var h := beforeFunc(s, self, args);
            h.Throw? ==> r == Throw(h.state, h.error)
  {
    match beforeFunc(s, self, args)
    case Throw(s1, e) => Throw(s1, e)
    case Return(s1, Some(v)) => Return(s1, v)
    case Return(s1, None) => original(s1, self, args)
  }

  /** The function `original.before(beforeFunc)` returns. */
  function Before<S, R, A, V, E>(
    original: Callable<S, R, A, V, E>,
    beforeFunc: Callable<S, R, A, Option<V>, E>): Callable<S, R, A, V, E>
  {
    (s: S, self: R, args: A) => CallBefore(original, beforeFunc, s, self, args)
  }

  /** When the hook answers truthy, the original is never reached: any two
      originals give the same completion. */
  lemma BeforeShortCircuits<S, R, A, V, E>(
    original1: Callable<S, R, A, V, E>,
    original2: Callable<S, R, A, V, E>,
    beforeFunc: Callable<S, R, A, Option<V>, E>,
    s: S, self: R, args: A)
    requires beforeFunc(s, self, args).Return? && beforeFunc(s, self, args).value.Some?
    ensures CallBefore(original1, beforeFunc, s, self, args) == CallBefore(original2, beforeFunc, s, self, args)
    ensures CallBefore(original1, beforeFunc, s, self, args).value == beforeFunc(s, self, args).value.value
  {
  }

  /** A hook that always answers `null` and touches nothing makes the wrapper
      behave exactly as the original. */
  lemma BeforeTransparent<S, R, A, V, E>(
    original: Callable<S, R, A, V, E>,
    beforeFunc: Callable<S, R, A, Option<V>, E>,
    s: S, self: R, args: A)
    requires beforeFunc(s, self, args) == Return(s, None)
    ensures Before(original, beforeFunc)(s, self, args) == original(s, self, args)
  {
  }

  /** One call of the function `original.after(afterFunc)` returns. */
  function CallAfter<S, R, A, V, E, H>(
    original: Callable<S, R, A, V, E>,
    afterFunc: Callable<S, V, A, H, E>,
    s: S, self: R, args: A): (r: Completion<S, V, E>)
    // the wrapper returns what the original returned, never the hook's result
    ensures r.Return? ==> original(s, self, args).Return? && r.value == original(s, self, args).value
    // the hook runs once, after the original, with the result as its receiver
    ensures var o := original(s, self, args);
            o.Return? ==> r.state == afterFunc(o.state, o.value, args).state
    // a throwing original throws out of the wrapper and the hook never runs
    ensures var o := original(s, self, args);
            o.Throw? ==> r == Throw(o.state, o.error)
    // when the original returns, the wrapper returns its value exactly when
    // the hook returns, and a throwing hook's error propagates unchanged
    ensures var o := original(s, self, args);
            o.Return? ==>
            var h := afterFunc(o.state, o.value, args);
            && (h.Return? ==> r == Return(h.state, o.value))
            && (h.Throw? ==> r == Throw(h.state, h.error))
  {
    match original(s, self, args)
    case Throw(s1, e) => Throw(s1, e)
    case Return(s1, ret) =>
      match afterFunc(s1, ret, args)
      case Throw(s2, e) => Throw(s2, e)
      case Return(s2, _) => Return(s2, ret)
  }

  /** The function `original.after(afterFunc)` returns. */
  function After<S, R, A, V, E, H>(
    original: Callable<S, R, A, V, E>,
    afterFunc: Callable<S, V, A, H, E>): Callable<S, R, A, V, E>
  {
    (s: S, self: R, args: A) => CallAfter(original, afterFunc, s, self, args)
  }

  /** The hook's own return value is discarded: two hooks that differ only in
      what they return give the same completion. */
  lemma AfterDiscardsHookResult<S, R, A, V, E, H>(
    original: Callable<S, R, A, V, E>,
    afterFunc1: Callable<S, V, A, H, E>,
    afterFunc2: Callable<S, V, A, H, E>,
    s: S, self: R, args: A)
    requires forall t: S, ret: V :: afterFunc1(t, ret, args).state == afterFunc2(t, ret, args).state
    requires forall t: S, ret: V :: afterFunc1(t, ret, args).Throw? <==> afterFunc2(t, ret, args).Throw?
    requires forall t: S, ret: V :: afterFunc1(t, ret, args).Throw? ==> afterFunc1(t, ret, args).error == afterFunc2(t, ret, args).error
    ensures CallAfter(original, afterFunc1, s, self, args) == CallAfter(original, afterFunc2, s, self, args)
  {
    match original(s, self, args)
    case Throw(_, _) =>
    case Return(s1, ret) =>
      assert afterFunc1(s1, ret, args).state == afterFunc2(s1, ret, args).state;
  }
}
