/** The `Methods` shim: `find` resolves a method once and hands back an
    invoker that sets the method's accessibility flag around each call. */
module Methods {
  import opened Wrappers
  import opened Reflection

  /** The function `find` returns, closed over the resolved method handle. */
  datatype Invoker = Invoker(target: Member)

  /** `find(name, ...types)`: the declared method with that signature, else
      the public (possibly inherited) one; if neither exists the failure of
      the second lookup propagates and no invoker is made. */
  function Find(c: ClassTables, name: string, params: seq<string>): (r: Result<Invoker, Error>)
    ensures r.Success? <==> HasKey(c.declaredMethods, Signature(name, params)) || HasKey(c.publicMethods, Signature(name, params))
    ensures r.Success? ==> Resolves(c.declaredMethods, c.publicMethods, Signature(name, params), r.value.target)
    ensures r.Failure? ==> r.error == NoSuchMethod(Signature(name, params))
  {
    var key := Signature(name, params);
    match FindMember(c.declaredMethods, c.publicMethods, key, NoSuchMethod(key))
    case Success(m) => Success(Invoker(m))
    case Failure(e) => Failure(e)
  }

  /** Calling the invoker with `(obj, ...args)`. `body` is what the method
      itself does, which the model does not see: it runs with the flag forced
      on. On success a flag that was off is switched off again and everything
      else is as the body left it; when the body throws, its
      completion propagates and a forced-on flag is not restored. */
  function Invoke(h: Host, inv: Invoker, obj: ObjRef, args: seq<Value>, body: MethodBody): (r: Completion<Host, Value, Error>)
    ensures var b := body(SetAccessible(h, inv.target, true), inv.target, obj, args);
            && (r.Return? <==> b.Return?)
            && (b.Throw? ==> r == b)
    ensures var b := body(SetAccessible(h, inv.target, true), inv.target, obj, args);
            r.Return? ==>
            && r.value == b.value
            && (!Flag(h, inv.target) ==> !Flag(r.state, inv.target))
            && (Flag(h, inv.target) ==> Flag(r.state, inv.target) == Flag(b.state, inv.target))
            && (forall m :: m != inv.target ==> Flag(r.state, m) == Flag(b.state, m))
            && r.state.store == b.state.store
    // the access check never refuses the call
    ensures r.Throw? ==> r.error == body(SetAccessible(h, inv.target, true), inv.target, obj, args).error
  {
    var m := inv.target;
    var isAccessible := Flag(h, m);
    var h1 := if !isAccessible then SetAccessible(h, m, true) else h;
    match RawInvoke(h1, m, obj, args, body)
    case Throw(h2, e) => Throw(h2, e)
    case Return(h2, ret) =>
      var h3 := if !isAccessible then SetAccessible(h2, m, false) else h2;
      Return(h3, ret)
  }

  /** A method whose code leaves the host alone is invoked without a trace:
      a successful call leaves the host exactly as it was. */
  lemma InvokePureBodyKeepsHost(h: Host, inv: Invoker, obj: ObjRef, args: seq<Value>, body: MethodBody)
    requires var h1 := SetAccessible(h, inv.target, true);
             body(h1, inv.target, obj, args).state == h1
    ensures Invoke(h, inv, obj, args, body).Return? ==> Invoke(h, inv, obj, args, body).state == h
  {
  }

  /** The invoker touches no flag but the method's own: when the method's
      code leaves every flag alone, a successful call leaves all flags as
      they were, and the method's own flag comes back off if it was off. */
  lemma InvokeRestoresFlags(h: Host, inv: Invoker, obj: ObjRef, args: seq<Value>, body: MethodBody)
    requires forall h': Host :: body(h', inv.target, obj, args).state.accessible == h'.accessible
    ensures Invoke(h, inv, obj, args, body).Return? ==> Invoke(h, inv, obj, args, body).state.accessible == h.accessible
  {
  }
}
