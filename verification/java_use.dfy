/** The memoized `Java.use`: the resolver entry point is wrapped first with a
    before-hook that answers from `javaUseMapping`, and that wrapper is then
    wrapped with an after-hook that attaches fresh `Fields`/`Methods` shims to
    the returned wrapper object and records it in the mapping. */
module JavaUse {
  import opened Wrappers
  import Aop

  /** Identity of a JavaScript object the model allocates. */
  type ObjId = nat
  /** The `class` property of a wrapper: the host class object. */
  type ClassRef = nat

  /** A `Fields` or `Methods` instance: its identity and the class it is bound to. */
  datatype Shim = Shim(id: ObjId, bound: ClassRef)

  /** A `Java.Wrapper` object: its `class`, and the `$fields`/`$methods`
      properties the after-hook attaches. */
  datatype WrapperObj = WrapperObj(cls: ClassRef, fields: Option<Shim>, methods: Option<Shim>)

  /** The process-wide state the hooks touch: `javaUseMapping`, the objects
      that exist, the next fresh identity, and how often the underlying
      resolver has been called. */
  datatype State = State(
    mapping: map<string, ObjId>,
    heap: map<ObjId, WrapperObj>,
    nextId: nat,
    resolverCalls: nat)

  datatype Error =
    | ClassNotFound(className: string)
    | NotAWrapper(receiver: ObjId)

  /** The underlying `Java.use`: the class a name denotes, if any. Each
      successful call yields a new wrapper object. */
  type Resolver = string -> Option<ClassRef>

  /** Every cached name refers to a live object, and every identity in use
      is below `nextId`. */
  ghost predicate Valid(s: State) {
    && (forall n :: n in s.mapping ==> s.mapping[n] in s.heap)
    && (forall id :: id in s.heap ==> id < s.nextId)
    && (forall id :: id in s.heap && s.heap[id].fields.Some? ==> s.heap[id].fields.value.id < s.nextId)
    && (forall id :: id in s.heap && s.heap[id].methods.Some? ==> s.heap[id].methods.value.id < s.nextId)
  }

  /** The original entry point, as a callable with the `Java` object (here
      `()`) as receiver and the class name as argument. */
  function ResolveCall(resolver: Resolver, s: State, self: (), className: string): Completion<State, ObjId, Error> {
    var s1 := s.(resolverCalls := s.resolverCalls + 1);
    match resolver(className)
    case None => Throw(s1, ClassNotFound(className))
    case Some(cls) =>
      Return(s1.(heap := s.heap[s.nextId := WrapperObj(cls, None, None)], nextId := s.nextId + 1), s.nextId)
  }

  /** The before-hook of agent/FridaUtil.ts:185-193: the cached object when
      the name has an entry (objects are truthy), `null` otherwise. */
  function CacheLookup(s: State, self: (), className: string): (r: Completion<State, Option<ObjId>, Error>)
    ensures r.Return? && r.state == s
    ensures r.value.Some? <==> className in s.mapping
    ensures r.value.Some? ==> r.value.value == s.mapping[className]
  {
    if className in s.mapping then Return(s, Some(s.mapping[className])) else Return(s, None)
  }

  /** `w` carries `$fields` and `$methods` made during the step from `s`:
      distinct fresh identities, both bound to the wrapper's class. */
  ghost predicate FreshlyDecorated(s: State, w: WrapperObj) {
    && w.fields.Some? && w.methods.Some?
    && w.fields.value.bound == w.cls && w.methods.value.bound == w.cls
    && s.nextId <= w.fields.value.id && s.nextId <= w.methods.value.id
    && w.fields.value.id != w.methods.value.id
  }

  /** The after-hook of agent/FridaUtil.ts:197-207, with the returned wrapper
      as receiver: fresh `Fields` and `Methods` bound to `this.class`, then
      `javaUseMapping[className] = this`. */
  function Decorate(s: State, self: ObjId, className: string): (r: Completion<State, (), Error>)
    // only a live wrapper object can be decorated
    ensures r.Throw? <==> self !in s.heap
    ensures r.Throw? ==> r == Throw(s, NotAWrapper(self))
    // fresh, distinct `$fields` and `$methods`, both bound to `this.class`
    ensures r.Return? ==>
            && self in r.state.heap
            && r.state.heap[self].cls == s.heap[self].cls
            && FreshlyDecorated(s, r.state.heap[self])
    // the name now maps to the receiver, and no other object changes
    ensures r.Return? ==> r.state.mapping == s.mapping[className := self]
    ensures r.Return? ==> r.state.heap.Keys == s.heap.Keys
    ensures r.Return? ==> forall id :: id in s.heap && id != self ==> r.state.heap[id] == s.heap[id]
    ensures r.state.resolverCalls == s.resolverCalls
  {
    if self !in s.heap then Throw(s, NotAWrapper(self))
    else
      var w := s.heap[self];
      var w' := w.(fields := Some(Shim(s.nextId, w.cls)), methods := Some(Shim(s.nextId + 1, w.cls)));
      Return(s.(heap := s.heap[self := w'], nextId := s.nextId + 2, mapping := s.mapping[className := self]), ())
  }

  /** `Java.use` after both assignments: the after-wrapper goes around the
      before-wrapper, so the after-hook runs on cache hits too. */
  function Hooked(resolver: Resolver): (use: Aop.Callable<State, (), string, ObjId, Error>)
  {
    var resolve := (s: State, self: (), className: string) => ResolveCall(resolver, s, self, className);
    Aop.After(Aop.Before(resolve, CacheLookup), Decorate)
  }

  /** The state when the agent loads: `javaUseMapping = {}` and no wrapper
      objects yet. */
  lemma InitialValid()
    ensures Valid(State(map[], map[], 0, 0))
  {
  }

  /** What the order of the two assignments means for one call: the cache
      hook sits inside, so the resolver is reached only on a miss; the
      decorating hook sits outside, so it also runs on the object a hit
      returns. */
  lemma HookedOrder(resolver: Resolver, s: State, className: string)
    ensures Hooked(resolver)(s, (), className).state.resolverCalls ==
            s.resolverCalls + (if className in s.mapping then 0 else 1)
    ensures className in s.mapping && s.mapping[className] in s.heap ==>
            var cached := s.mapping[className];
            Hooked(resolver)(s, (), className) == Return(Decorate(s, cached, className).state, cached)
  {
  }

  /** One call `Java.use(className)`. */
  function Use(resolver: Resolver, s: State, className: string): (r: Completion<State, ObjId, Error>)
    requires Valid(s)
    ensures Valid(r.state)
    // the underlying resolver runs exactly when the name has no entry
    ensures r.state.resolverCalls == s.resolverCalls + (if className in s.mapping then 0 else 1)
    // a hit returns the cached object and cannot fail
    ensures className in s.mapping ==> r.Return? && r.value == s.mapping[className]
    // a miss succeeds exactly when the resolver knows the name, with a new object for its class
    ensures className !in s.mapping ==> (r.Return? <==> resolver(className).Some?)
    ensures className !in s.mapping && r.Return? ==>
            r.value !in s.heap && r.value in r.state.heap && r.state.heap[r.value].cls == resolver(className).value
    // a failed resolution propagates and leaves the mapping and objects alone
    ensures r.Throw? ==> r.error == ClassNotFound(className) && r.state.mapping == s.mapping && r.state.heap == s.heap
    // after success the name maps to the returned object; other names are untouched
    ensures r.Return? ==> r.state.mapping == s.mapping[className := r.value]
  {
    Hooked(resolver)(s, (), className)
  }

  /** Every successful call, hit or miss, re-decorates the returned object
      with fresh shims bound to its class, and no other object changes. */
  lemma UseDecorates(resolver: Resolver, s: State, className: string)
    requires Valid(s)
    ensures var r := Use(resolver, s, className);
            r.Return? ==>
            && r.value in r.state.heap
            && FreshlyDecorated(s, r.state.heap[r.value])
            && r.state.heap.Keys == s.heap.Keys + {r.value}
            && (forall id :: id in s.heap && id != r.value ==> r.state.heap[id] == s.heap[id])
            && (r.value in s.heap ==> r.state.heap[r.value].cls == s.heap[r.value].cls)
  {
  }

  /** Resolving a name twice in a row: the second call returns the identical
      object and does not reach the resolver. */
  lemma SecondUseHits(resolver: Resolver, s: State, className: string)
    requires Valid(s)
    requires Use(resolver, s, className).Return?
    ensures var r1 := Use(resolver, s, className);
            var r2 := Use(resolver, r1.state, className);
            r2.Return? && r2.value == r1.value && r2.state.resolverCalls == r1.state.resolverCalls
  {
  }

  /** Unlike a decorate-once cache, a hit replaces the shims: the `$fields`
      seen after the second call is not the one attached by the first. */
  lemma HitReplacesShims(resolver: Resolver, s: State, className: string)
    requires Valid(s)
    requires Use(resolver, s, className).Return?
    ensures var r1 := Use(resolver, s, className);
            var r2 := Use(resolver, r1.state, className);
            r2.state.heap[r2.value].fields != r1.state.heap[r1.value].fields
  {
    var r1 := Use(resolver, s, className);
    UseDecorates(resolver, s, className);
    UseDecorates(resolver, r1.state, className);
  }

  /** Every entry of `s`'s mapping is still in `t`'s, pointing at the same object. */
  ghost predicate Keeps(s: State, t: State) {
    forall n :: n in s.mapping ==> n in t.mapping && t.mapping[n] == s.mapping[n]
  }

  /** `ids[i]` is the object `t`'s mapping holds for `names[i]`, for every call. */
  ghost predicate Answered(names: seq<string>, ids: seq<ObjId>, t: State) {
    && |ids| == |names|
    && forall i :: 0 <= i < |names| ==> names[i] in t.mapping && ids[i] == t.mapping[names[i]]
  }

  /** One step of a run: the first call's answer is kept by the rest of the run. */
  lemma AnsweredCons(names: seq<string>, id: ObjId, ids: seq<ObjId>, s: State, s1: State, s2: State)
    requires names != []
    requires s1.mapping == s.mapping[names[0] := id] && Keeps(s, s1)
    requires Keeps(s1, s2) && Answered(names[1..], ids, s2)
    ensures Keeps(s, s2) && Answered(names, [id] + ids, s2)
  {
  }

  /** Answers read off one mapping agree wherever the names do. */
  lemma AnsweredSameName(names: seq<string>, ids: seq<ObjId>, t: State)
    requires Answered(names, ids, t)
    ensures forall i, j :: 0 <= i < |names| && 0 <= j < |names| && names[i] == names[j] ==> ids[i] == ids[j]
  {
  }

  /** `Java.use` applied to each name in turn, stopping at the first throw. */
  function UseAll(resolver: Resolver, s: State, names: seq<string>): (r: Completion<State, seq<ObjId>, Error>)
    requires Valid(s)
    ensures Valid(r.state)
    // an entry, once made, keeps pointing at the same object
    ensures Keeps(s, r.state)
    // each call returned the object the mapping now holds for its name
    ensures r.Return? ==> Answered(names, r.value, r.state)
    // calls with the same name returned the identical object
    ensures r.Return? ==> forall i, j :: 0 <= i < |names| && 0 <= j < |names| && names[i] == names[j] ==> r.value[i] == r.value[j]
    decreases |names|
  {
    if names == [] then Return(s, [])
    else
      match Use(resolver, s, names[0])
      case Throw(s1, e) => Throw(s1, e)
      case Return(s1, id) =>
        match UseAll(resolver, s1, names[1..])
        case Throw(s2, e) => Throw(s2, e)
        case Return(s2, ids) =>
          AnsweredCons(names, id, ids, s, s1, s2);
          AnsweredSameName(names, [id] + ids, s2);
          Return(s2, [id] + ids)
  }

  /** The names of a run that the mapping did not hold when it started. */
  function NewNames(cached: set<string>, names: seq<string>): set<string> {
    set n | n in names && n !in cached
  }

  /** Taking the first name of a run into the cache accounts for it: it
      leaves the new names exactly when it was new. */
  lemma NewNamesStep(cached: set<string>, names: seq<string>)
    requires names != []
    ensures |NewNames(cached, names)| == |NewNames(cached + {names[0]}, names[1..])| + (if names[0] in cached then 0 else 1)
  {
    var n0 := names[0];
    var before := NewNames(cached, names);
    var after := NewNames(cached + {n0}, names[1..]);
    forall n | n in before && n != n0
      ensures n in after
    {
      var k :| 0 <= k < |names| && names[k] == n;
      assert names[1..][k - 1] == n;
    }
    if n0 in cached {
      assert before == after;
    } else {
      assert before == after + {n0};
    }
  }

  /** Over a successful run, the resolver is called once per name that was
      not cached at the start, however often each name is used. */
  lemma {:induction false} UseAllResolverCalls(resolver: Resolver, s: State, names: seq<string>)
    requires Valid(s)
    requires UseAll(resolver, s, names).Return?
    ensures UseAll(resolver, s, names).state.resolverCalls == s.resolverCalls + |NewNames(s.mapping.Keys, names)|
    decreases |names|
  {
    if names != [] {
      var r1 := Use(resolver, s, names[0]);
      var s1 := r1.state;
      assert s1.mapping.Keys == s.mapping.Keys + {names[0]};
      assert UseAll(resolver, s, names).state == UseAll(resolver, s1, names[1..]).state;
      UseAllResolverCalls(resolver, s1, names[1..]);
      NewNamesStep(s.mapping.Keys, names);
    }
  }
}
