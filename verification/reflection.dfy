/** The host's reflection API as the field and method shims see it: a class's
    member tables, the per-member accessibility flag, and the raw
    get/set/invoke operations. Members, objects and values are opaque handles. */
module Reflection {
  import opened Wrappers

  /** A `java.lang.reflect.Field` or `Method` handle. */
  type Member = nat
  /** A Java object reference. */
  type ObjRef = nat
  /** A value of static type `java.lang.Object`. */
  type Value = int

  /** A method's name and parameter type names, the key of
      `getDeclaredMethod(name, types)` and `getMethod(name, types)`. */
  datatype Signature = Signature(name: string, params: seq<string>)

  /** One row of a member table. */
  datatype Entry<K> = Entry(key: K, member: Member)

  /** The class a `Fields` or `Methods` shim is bound to: members the class
      itself declares (`getDeclaredField(s)`, `getDeclaredMethod`), and the
      public members including inherited ones (`getField(s)`, `getMethod`). */
  datatype ClassTables = ClassTables(
    declaredFields: seq<Entry<string>>,
    publicFields: seq<Entry<string>>,
    declaredMethods: seq<Entry<Signature>>,
    publicMethods: seq<Entry<Signature>>)

  /** The mutable part of the host: which members currently have their
      accessibility override set, and the field values of objects. */
  datatype Host = Host(accessible: set<Member>, store: map<(Member, ObjRef), Value>)

  /** What the host throws. */
  datatype Error =
    | NoSuchField(field: string)
    | NoSuchMethod(signature: Signature)
    | IllegalAccess(member: Member)
    | IllegalArgument(member: Member)
    | InvocationTarget(member: Member)

  ghost predicate HasKey<K>(entries: seq<Entry<K>>, key: K) {
    exists i :: 0 <= i < |entries| && entries[i].key == key
  }

  /** Row `i` is the first one with this key. */
  ghost predicate FirstWithKey<K>(entries: seq<Entry<K>>, key: K, i: int) {
    && 0 <= i < |entries|
    && entries[i].key == key
    && forall j :: 0 <= j < i ==> entries[j].key != key
  }

  /** Dropping a first row that does not carry the key keeps the answer. */
  lemma LookupShift<K>(entries: seq<Entry<K>>, key: K, r: Option<Member>)
    requires |entries| > 0 && entries[0].key != key
    requires r.Some? <==> HasKey(entries[1..], key)
    requires r.Some? ==> exists i :: FirstWithKey(entries[1..], key, i) && entries[1..][i].member == r.value
    ensures r.Some? <==> HasKey(entries, key)
    ensures r.Some? ==> exists i :: FirstWithKey(entries, key, i) && entries[i].member == r.value
  {
    if r.Some? {
      var i :| FirstWithKey(entries[1..], key, i) && entries[1..][i].member == r.value;
      assert FirstWithKey(entries, key, i + 1);
    }
    if HasKey(entries, key) {
      var i :| 0 <= i < |entries| && entries[i].key == key;
      assert entries[1..][i - 1].key == key;
    }
  }

  /** A single-table lookup (`getDeclaredField`, `getField`, ...): the member
      of the first row with the key, or nothing. */
  function Lookup<K(==)>(entries: seq<Entry<K>>, key: K): (r: Option<Member>)
    ensures r.Some? <==> HasKey(entries, key)
    ensures r.Some? ==> exists i :: FirstWithKey(entries, key, i) && entries[i].member == r.value
  {
    if entries == [] then None
    else if entries[0].key == key then
      assert FirstWithKey(entries, key, 0);
      Some(entries[0].member)
    else
      var r := Lookup(entries[1..], key);
      LookupShift(entries, key, r);
      r
  }

  /** The lookup `Fields.find` and `Methods.find` perform: the declared table
      first; only if that fails, the public table, whose failure propagates. */
  ghost predicate Resolves<K>(declared: seq<Entry<K>>, inherited: seq<Entry<K>>, key: K, m: Member) {
    || (exists i :: FirstWithKey(declared, key, i) && declared[i].member == m)
    || (!HasKey(declared, key) && exists i :: FirstWithKey(inherited, key, i) && inherited[i].member == m)
  }

  /** Declared lookup with inherited lookup as the fallback. */
  function FindMember<K(==)>(declared: seq<Entry<K>>, inherited: seq<Entry<K>>, key: K, notFound: Error): (r: Result<Member, Error>)
    ensures r.Success? <==> HasKey(declared, key) || HasKey(inherited, key)
    ensures r.Success? ==> Resolves(declared, inherited, key, r.value)
    ensures r.Failure? ==> r.error == notFound
  {
    match Lookup(declared, key)
    case Some(m) => Success(m)
    case None =>
      match Lookup(inherited, key)
      case Some(m) => Success(m)
      case None => Failure(notFound)
  }

  /** There is only one first row with a given key. */
  lemma FirstWithKeyUnique<K>(entries: seq<Entry<K>>, key: K, i: int, j: int)
    requires FirstWithKey(entries, key, i) && FirstWithKey(entries, key, j)
    ensures i == j
  {
  }

  /** `Resolves` names at most one member, so `find` is a function of the tables. */
  lemma ResolvesUnique<K>(declared: seq<Entry<K>>, inherited: seq<Entry<K>>, key: K, m1: Member, m2: Member)
    requires Resolves(declared, inherited, key, m1) && Resolves(declared, inherited, key, m2)
    ensures m1 == m2
  {
    forall e: seq<Entry<K>>, i: int, j: int | FirstWithKey(e, key, i) && FirstWithKey(e, key, j)
      ensures i == j
    {
      FirstWithKeyUnique(e, key, i, j);
    }
  }

  function Flag(h: Host, m: Member): bool {
    m in h.accessible
  }

  /** `setAccessible(b)`: only that member's flag changes. */
  function SetAccessible(h: Host, m: Member, b: bool): (h': Host)
    ensures Flag(h', m) == b
    ensures forall m' :: m' != m ==> Flag(h', m') == Flag(h, m')
    ensures h'.store == h.store
    ensures Flag(h, m) == b ==> h' == h
  {
    if b then h.(accessible := h.accessible + {m}) else h.(accessible := h.accessible - {m})
  }

  /** `field.get(obj)` on the host: refused while the flag is off; fails when
      `obj` has no such field. */
  function RawGet(h: Host, f: Member, obj: ObjRef): (r: Result<Value, Error>)
    ensures r.Success? <==> Flag(h, f) && (f, obj) in h.store
    ensures r.Success? ==> r.value == h.store[(f, obj)]
    ensures !Flag(h, f) ==> r == Failure(IllegalAccess(f))
  {
    if !Flag(h, f) then Failure(IllegalAccess(f))
    else if (f, obj) in h.store then Success(h.store[(f, obj)])
    else Failure(IllegalArgument(f))
  }

  /** `field.set(obj, val)` on the host: the same checks as `RawGet`; on
      success only that one slot of the store changes. */
  function RawSet(h: Host, f: Member, obj: ObjRef, v: Value): (r: Result<Host, Error>)
    ensures r.Success? <==> Flag(h, f) && (f, obj) in h.store
    ensures r.Success? ==> r.value.accessible == h.accessible && r.value.store == h.store[(f, obj) := v]
    ensures !Flag(h, f) ==> r == Failure(IllegalAccess(f))
  {
    if !Flag(h, f) then Failure(IllegalAccess(f))
    else if (f, obj) in h.store then Success(h.(store := h.store[(f, obj) := v]))
    else Failure(IllegalArgument(f))
  }

  /** What a method's own code does when invoked on the host: it sees the
      host as it stands and may change flags and field values before it
      returns or throws. */
  type MethodBody = (Host, Member, ObjRef, seq<Value>) -> Completion<Host, Value, Error>

  /** `method.invoke(obj, args)` on the host: refused while the flag is off,
      otherwise whatever the method body, which the model does not see, does. */
  function RawInvoke(h: Host, m: Member, obj: ObjRef, args: seq<Value>, body: MethodBody): (r: Completion<Host, Value, Error>)
    ensures Flag(h, m) ==> r == body(h, m, obj, args)
    ensures !Flag(h, m) ==> r == Throw(h, IllegalAccess(m))
  {
    if !Flag(h, m) then Throw(h, IllegalAccess(m)) else body(h, m, obj, args)
  }
}
