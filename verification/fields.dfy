/** The `Fields` shim: field lookup and field access that works around the
    accessibility check by setting the member's flag for the duration of the
    access. */
module Fields {
  import opened Wrappers
  import opened Reflection

  /** `find(name)`: the declared field, else the public (possibly inherited)
      one; if neither exists the failure of the second lookup propagates. */
  function Find(c: ClassTables, name: string): (r: Result<Member, Error>)
    ensures r.Success? <==> HasKey(c.declaredFields, name) || HasKey(c.publicFields, name)
    ensures r.Success? ==> Resolves(c.declaredFields, c.publicFields, name, r.value)
    ensures r.Failure? ==> r.error == NoSuchField(name)
  {
    FindMember(c.declaredFields, c.publicFields, name, NoSuchField(name))
  }

  /** The member handles of a table, in order (`getDeclaredFields()`,
      `getFields()`). */
  function Members(entries: seq<Entry<string>>): (ms: seq<Member>)
    ensures |ms| == |entries|
    ensures forall i :: 0 <= i < |entries| ==> ms[i] == entries[i].member
  {
    seq(|entries|, i requires 0 <= i < |entries| => entries[i].member)
  }

  /** `findall()` as written: the result of `concat` is dropped, so only the
      declared fields come back. */
  function FindAllAsWritten(c: ClassTables): (r: seq<Member>)
    ensures |r| == |c.declaredFields|
    ensures forall i :: 0 <= i < |r| ==> r[i] == c.declaredFields[i].member
  {
    var fields := Members(c.declaredFields);
    var _ := fields + Members(c.publicFields);
    fields
  }

  /** `findall()` as intended: the declared fields followed by the public
      ones, duplicates kept. */
  function FindAll(c: ClassTables): (r: seq<Member>)
    ensures |r| == |c.declaredFields| + |c.publicFields|
    ensures forall i :: 0 <= i < |c.declaredFields| ==> r[i] == c.declaredFields[i].member
    ensures forall i :: 0 <= i < |c.publicFields| ==> r[|c.declaredFields| + i] == c.publicFields[i].member
  {
    Members(c.declaredFields) + Members(c.publicFields)
  }

  /** A handle is among a table's members exactly when some row holds it. */
  lemma MembersContains(entries: seq<Entry<string>>, m: Member)
    ensures m in Members(entries) <==> exists i :: 0 <= i < |entries| && entries[i].member == m
  {
    var ms := Members(entries);
    if m in ms {
      var k :| 0 <= k < |ms| && ms[k] == m;
      assert entries[k].member == m;
    }
  }

  /** A handle is listed by the intended `findall` exactly when one of the two
      tables holds it. */
  lemma FindAllListsBothTables(c: ClassTables, m: Member)
    ensures m in FindAll(c) <==>
            (exists i :: 0 <= i < |c.declaredFields| && c.declaredFields[i].member == m) ||
            (exists i :: 0 <= i < |c.publicFields| && c.publicFields[i].member == m)
  {
    MembersContains(c.declaredFields, m);
    MembersContains(c.publicFields, m);
    assert FindAll(c) == Members(c.declaredFields) + Members(c.publicFields);
  }

  /** The written `findall` agrees with the intended one exactly when the
      class has no public fields to add. */
  lemma FindAllAsWrittenDropsPublic(c: ClassTables)
    ensures FindAllAsWritten(c) == FindAll(c) <==> c.publicFields == []
  {
    if c.publicFields == [] {
      assert FindAll(c) == Members(c.declaredFields);
    }
  }

  /** A concrete class that shows the dropped `concat`: one public inherited
      field and no declared one. */
  lemma FindAllAsWrittenMissesInherited()
    ensures var c := ClassTables([], [Entry("count", 7)], [], []);
            FindAllAsWritten(c) == [] && FindAll(c) == [7]
  {
  }

  /** `get(name, obj)` as written: the flag is cleared afterwards when it WAS
      set, and left set when it was not, so a successful read negates it. */
  function GetAsWritten(h: Host, c: ClassTables, name: string, obj: ObjRef): (r: Completion<Host, Value, Error>)
    ensures Find(c, name).Failure? ==> r == Throw(h, Find(c, name).error)
    ensures Find(c, name).Success? ==>
            var f := Find(c, name).value;
            && (r.Return? <==> (f, obj) in h.store)
            && (r.Return? ==> r.value == h.store[(f, obj)])
            && (r.Return? ==> Flag(r.state, f) == !Flag(h, f))
            && (r.Throw? ==> r == Throw(SetAccessible(h, f, true), IllegalArgument(f)))
    ensures forall m :: Find(c, name).Failure? || m != Find(c, name).value ==> Flag(r.state, m) == Flag(h, m)
    ensures r.state.store == h.store
  {
    match Find(c, name)
    case Failure(e) => Throw(h, e)
    case Success(field) =>
      var notAccessible := !Flag(h, field);
      var h1 := if notAccessible then SetAccessible(h, field, true) else h;
      match RawGet(h1, field, obj)
      case Failure(e) => Throw(h1, e)
      case Success(ret) =>
        var h2 := if !notAccessible then SetAccessible(h1, field, false) else h1;
        Return(h2, ret)
  }

  /** `get(name, obj)` as intended: the flag is cleared afterwards only when
      it had been forced on, so a successful read leaves the host unchanged. */
  function Get(h: Host, c: ClassTables, name: string, obj: ObjRef): (r: Completion<Host, Value, Error>)
    ensures r.Return? <==> Find(c, name).Success? && (Find(c, name).value, obj) in h.store
    ensures r.Return? ==> r.state == h && r.value == h.store[(Find(c, name).value, obj)]
    ensures Find(c, name).Failure? ==> r == Throw(h, Find(c, name).error)
    ensures Find(c, name).Success? && r.Throw? ==>
            var f := Find(c, name).value;
            r == Throw(SetAccessible(h, f, true), IllegalArgument(f))
    ensures r.Throw? ==> !r.error.IllegalAccess?
  {
    match Find(c, name)
    case Failure(e) => Throw(h, e)
    case Success(field) =>
      var notAccessible := !Flag(h, field);
      var h1 := if notAccessible then SetAccessible(h, field, true) else h;
      match RawGet(h1, field, obj)
      case Failure(e) => Throw(h1, e)
      case Success(ret) =>
        var h2 := if notAccessible then SetAccessible(h1, field, false) else h1;
        Return(h2, ret)
  }

  /** `set(name, obj, val)`: on success the flag is back to its value before
      the call and only the one slot of the store changed; when the write
      fails the forced-on flag is not restored. */
  function Set(h: Host, c: ClassTables, name: string, obj: ObjRef, v: Value): (r: Completion<Host, (), Error>)
    ensures r.Return? <==> Find(c, name).Success? && (Find(c, name).value, obj) in h.store
    ensures r.Return? ==> r.state == h.(store := h.store[(Find(c, name).value, obj) := v])
    ensures Find(c, name).Failure? ==> r == Throw(h, Find(c, name).error)
    ensures Find(c, name).Success? && r.Throw? ==>
            var f := Find(c, name).value;
            r == Throw(SetAccessible(h, f, true), IllegalArgument(f))
    ensures r.Throw? ==> !r.error.IllegalAccess?
  {
    match Find(c, name)
    case Failure(e) => Throw(h, e)
    case Success(field) =>
      var isAccessible := Flag(h, field);
      var h1 := if !isAccessible then SetAccessible(h, field, true) else h;
      match RawSet(h1, field, obj, v)
      case Failure(e) => Throw(h1, e)
      case Success(h2) =>
        var h3 := if !isAccessible then SetAccessible(h2, field, false) else h2;
        Return(h3, ())
  }

  /** Reading a field back after writing it gives the value written, and the
      read changes nothing. */
  lemma SetThenGet(h: Host, c: ClassTables, name: string, obj: ObjRef, v: Value)
    requires Set(h, c, name, obj, v).Return?
    ensures var h' := Set(h, c, name, obj, v).state;
            Get(h', c, name, obj) == Return(h', v)
  {
  }

  /** Two written `get`s in a row put the flag back: the negation is its own
      inverse. */
  lemma GetAsWrittenTwice(h: Host, c: ClassTables, name: string, obj: ObjRef)
    requires GetAsWritten(h, c, name, obj).Return?
    ensures var h1 := GetAsWritten(h, c, name, obj).state;
            GetAsWritten(h1, c, name, obj) == Return(h, GetAsWritten(h, c, name, obj).value)
  {
    var f := Find(c, name).value;
    var h1 := GetAsWritten(h, c, name, obj).state;
    var h2 := GetAsWritten(h1, c, name, obj).state;
    assert h2.accessible == h.accessible by {
      forall m
        ensures m in h2.accessible <==> m in h.accessible
      {
        assert Flag(h2, m) == Flag(h, m);
      }
    }
  }

  /** A concrete host that shows the negated flag: a field already made
      accessible comes out of the written `get` inaccessible, while the
      intended `get` leaves it as it was. */
  lemma GetAsWrittenClearsAccessibleField()
    ensures var c := ClassTables([Entry("secret", 7)], [], [], []);
            var h := Host({7}, map[(7, 1) := 42]);
            && GetAsWritten(h, c, "secret", 1) == Return(Host({}, map[(7, 1) := 42]), 42)
            && Get(h, c, "secret", 1) == Return(h, 42)
  {
    var c := ClassTables([Entry("secret", 7)], [], [], []);
    var h := Host({7}, map[(7, 1) := 42]);
    assert Find(c, "secret") == Success(7);
    assert SetAccessible(h, 7, false) == Host({}, map[(7, 1) := 42]);
  }
}
