# Instrumentation-agent helpers, modelled in Dafny

This project models the helper layer of a dynamic-instrumentation agent
(`agent/FridaUtil.ts`) and proves properties about it. The layer has four parts:

- **`byteArrayToHexString`**: turns a byte buffer into a lowercase hex string.
  Each byte gives two digits, zero-padded when the byte is below 16.
- **`Function.prototype.before` / `after`**: two interception combinators.
  - `before` runs a hook first and returns the hook's result when that result is truthy.
  - `after` runs the hook after the original, with the original's result as the receiver, and returns the original's result.
- **The `Fields` / `Methods` reflection shims**: they find a member in the
  declared table first and fall back to the public (inherited) table. They
  switch the member's accessibility flag on around a read, write or invocation.
- **The memoized `Java.use`**: it is wrapped twice.
  - First with a before-hook that answers from the `javaUseMapping` cache.
  - Then, around that wrapper, with an after-hook that attaches fresh `$fields` / `$methods` shims to the returned wrapper and writes it to the cache.

How the modules map to the source:
- A JavaScript function becomes a total Dafny function from (state, receiver, arguments) to a `Completion`.
- A `Completion` either returns a value or throws an error, and in both cases carries the state left behind (module `Aop`).
- JavaScript truthiness of the cache's answer is an `Option`.
- The host's reflection API is explicit data (module `Reflection`):
  - two ordered member tables per class, declared and public;
  - a set of members whose accessibility override is on;
  - a store of field values.
  - the code of an invoked method, which is a parameter. It sees the host and may change flags and field values before it returns or throws.
- The state of the `Java.use` cache is a record (module `JavaUse`):
  - the mapping from class names to objects;
  - the wrapper objects, each with its `class` and its `$fields` / `$methods` shims;
  - a counter of fresh object identities;
  - a count of calls to the underlying resolver.

Four places where the code does not do what its structure suggests; the
model follows the code:
- **No restore on failure.** None of `get`, `set` or the method invoker restores the flag when the underlying access throws. There is no `try`/`finally`, so the forced-on flag stays on. `Fields.Get`, `Fields.Set` and `Methods.Invoke` state this.
- **Decoration on cache hits.** The after-wrapper is installed around the before-wrapper, so decoration also runs on a cache hit. Every successful `Java.use` replaces `$fields` / `$methods` with new objects (`JavaUse.UseDecorates`, `JavaUse.HitReplacesShims`). The resolver itself still runs only on a miss.
- **`findall`** returns only the declared fields, not their union with the public ones (see Findings).
- **`get`** negates the flag instead of restoring it (see Findings).

## Model

| member | source | states |
|---|---|---|
| Hex.ByteArrayToHexString | agent/FridaUtil.ts:65-74 | the loop builds exactly the byte-by-byte encoding of the buffer, and its length is twice the number of bytes |
| Hex.ByteToHex | agent/FridaUtil.ts:69-71 | one byte becomes exactly two lowercase digits, high nibble first; a byte below 16 gets a leading `0` |
| Hex.Radix16Denotes | agent/FridaUtil.ts:69 | the modelled `toString(16)` is a true base-16 numeral for its input, with no leading zero unless the input is zero |
| Hex.HexOfDigits | agent/FridaUtil.ts:68-71 | byte `i` of the input is spelled by output characters `2i` and `2i+1` |
| Hex.HexOfIsLowerHex | agent/FridaUtil.ts:65-74 | every output character is a lowercase hex digit |
| Hex.HexOfConcat | agent/FridaUtil.ts:65-74 | encoding a concatenation equals concatenating the encodings |
| Hex.UnhexHexOf | agent/FridaUtil.ts:65-74 | reading the output back two digits at a time recovers the input bytes |
| Hex.HexOfUnhex | agent/FridaUtil.ts:65-74 | every string that reads back as bytes is the encoding of those bytes |
| Hex.HexRoundTrip | agent/FridaUtil.ts:65-74 | a string decodes to some bytes if and only if it is their encoding |
| Aop.CallBefore | agent/FridaUtil.ts:81-91 | a truthy hook result is returned as it is; a falsy one passes the same receiver and arguments to the original, whose completion is returned unchanged; a throwing hook's error propagates |
| Aop.BeforeShortCircuits | agent/FridaUtil.ts:86-88 | when the hook answers truthy, the original is never reached: any two originals give the same completion |
| Aop.BeforeTransparent | agent/FridaUtil.ts:86-89 | a hook that answers null and changes nothing leaves the wrapped function behaving exactly like the original |
| Aop.CallAfter | agent/FridaUtil.ts:98-107 | when the original and then the hook (run once, with the original's result as receiver) both return, the wrapper returns the original's result in the state the hook left; a throwing hook's error propagates unchanged; a throwing original propagates and skips the hook |
| Aop.AfterDiscardsHookResult | agent/FridaUtil.ts:104-105 | two hooks that differ only in what they return give identical completions |
| Reflection.FindMember | agent/FridaUtil.ts:116-124 | lookup succeeds exactly when the declared or the inherited table has the key; the declared row wins; otherwise the inherited lookup's failure propagates |
| Reflection.ResolvesUnique | agent/FridaUtil.ts:116-124 | declared-first lookup names at most one member for a key |
| Fields.Find | agent/FridaUtil.ts:116-124 | a field is found exactly when one of the two tables has its name; a declared field shadows an inherited one; otherwise the error is the missing-field failure |
| Fields.FindAllAsWritten | agent/FridaUtil.ts:126-131 | the result is exactly the declared fields, in order, whatever the public table holds |
| Fields.FindAll | agent/FridaUtil.ts:126-131 | the intended result is the declared fields followed by the public fields, duplicates kept |
| Fields.MembersContains | agent/FridaUtil.ts:128 | a handle is among a table's members exactly when some row of the table holds it |
| Fields.FindAllListsBothTables | agent/FridaUtil.ts:126-131 | the intended `findall` lists a handle exactly when the declared or the public table holds it |
| Fields.FindAllAsWrittenDropsPublic | agent/FridaUtil.ts:128-130 | the written and intended `findall` agree exactly when the class has no public fields |
| Fields.FindAllAsWrittenMissesInherited | agent/FridaUtil.ts:129 | a concrete class with one inherited public field, which the written `findall` omits |
| Fields.GetAsWritten | agent/FridaUtil.ts:133-142 | a successful read returns the field's value and negates that field's flag; a failed read leaves the flag on; no other flag or value changes |
| Fields.GetAsWrittenTwice | agent/FridaUtil.ts:137-140 | two successful written reads in a row leave the host exactly as it was |
| Fields.GetAsWrittenClearsAccessibleField | agent/FridaUtil.ts:140 | a concrete host where a field that was already accessible comes out inaccessible |
| Fields.Get | agent/FridaUtil.ts:133-142 | the corrected `get` (see Findings): a successful read returns the field's value and leaves the host unchanged; it never fails for lack of access; a failed read leaves the forced flag on |
| Fields.Set | agent/FridaUtil.ts:144-151 | a successful write changes only that field's slot and restores the flag; it never fails for lack of access; a failed write leaves the forced flag on |
| Fields.SetThenGet | agent/FridaUtil.ts:133-151 | after a successful write, a read returns the written value and changes nothing |
| Methods.Find | agent/FridaUtil.ts:161-167 | an invoker exists exactly when one of the two tables has the signature; a declared method shadows an inherited one; otherwise the missing-method failure propagates |
| Methods.Invoke | agent/FridaUtil.ts:168-176 | the method's code runs with the flag forced on, and the invoker succeeds exactly when that code does; on success it returns the code's result, a flag that was off is off again, and every other flag and field value is as the code left it; when the code throws, its completion propagates as it is, so a flag the invoker forced on is not switched off again; the access check never refuses the call |
| Methods.InvokePureBodyKeepsHost | agent/FridaUtil.ts:171-174 | invoking a method whose code leaves the host alone leaves the host exactly as it was |
| Methods.InvokeRestoresFlags | agent/FridaUtil.ts:171-174 | when the method's code changes no flag, a successful invocation leaves every flag as it was before the call |
| JavaUse.CacheLookup | agent/FridaUtil.ts:185-193 | the before-hook answers with the cached object exactly when the name has an entry, and changes nothing |
| JavaUse.Decorate | agent/FridaUtil.ts:197-207 | the after-hook fails exactly when its receiver is not a live wrapper; otherwise it gives the receiver fresh, distinct `$fields`/`$methods` bound to its class, maps the name to the receiver, and changes no other object |
| JavaUse.HookedOrder | agent/FridaUtil.ts:185-207 | `Java.use` after both assignments (`JavaUse.Hooked`): the cache hook runs inside, so the resolver is reached only for a name with no entry; the decorating hook runs outside, so a hit returns the cached object after decorating it again |
| JavaUse.InitialValid | agent/FridaUtil.ts:181 | the state when the agent loads, with an empty `javaUseMapping`, meets the invariant `Java.use` relies on |
| JavaUse.Use | agent/FridaUtil.ts:181-207 | the resolver runs only on a miss; a hit returns the cached object; a miss succeeds exactly when the resolver knows the name, with a new object; on success the name maps to the returned object and other names are untouched; a failure leaves the cache alone |
| JavaUse.UseDecorates | agent/FridaUtil.ts:197-207 | every success, hit or miss, gives the returned object new `$fields`/`$methods` bound to its class; no other object changes |
| JavaUse.SecondUseHits | agent/FridaUtil.ts:185-207 | resolving the same name twice returns the identical object, and the resolver is not called again |
| JavaUse.HitReplacesShims | agent/FridaUtil.ts:197-207 | after a hit, the object's `$fields` is a different object from the one the previous call attached |
| JavaUse.UseAll | agent/FridaUtil.ts:181-207 | over a run of calls, a cache entry once made keeps pointing at the same object, each call returned the object the cache holds for its name, and calls with the same name returned the identical object |
| JavaUse.NewNamesStep | agent/FridaUtil.ts:187-190 | caching the first name of a run removes it from the run's uncached names exactly when it was uncached |
| JavaUse.UseAllResolverCalls | agent/FridaUtil.ts:185-193 | over a successful run, the resolver is called once per distinct name that was not cached at the start |

## Left out

- `gettid`, `getpid` and `getuid` (agent/FridaUtil.ts:1-5) are foreign calls into native code.
- `nativeThreadTraceToString` (agent/FridaUtil.ts:7-49) is left out because it depends on the host's module lookup and on parsing host pointer strings. Its indentation loop stops only when `i` equals `tab`, so it does not end for a negative or fractional `tab`.
- `javaThreadTraceToString` (agent/FridaUtil.ts:51-63) only formats a host thread's stack trace.
- `getCurrentApplication` and `getApplicationContext` (agent/FridaUtil.ts:209-225) are host calls wrapped in catch-all `null` returns.
- The RegisterNatives enter and leave hooks (agent/FridaUtil.ts:227-265) do raw memory reads, pointer arithmetic and logging.
- `console.log` output (agent/FridaUtil.ts:188) has no effect on results.
- `new Uint8Array(arybuf)` is modelled only for byte-buffer input. The input is a sequence of values 0..255, so truncation of other array inputs is not modelled.
- Reflection value types and `overload` selection are not modelled: values, objects and members are opaque numbers.
- `isAccessible` and `setAccessible` never fail in the model. The host's own refusals (security checks, module boundaries) are not modelled.
- The host's access check is simplified: every member is treated as access-checked, so a raw access with the flag off always fails.
- The model keeps one persistent accessibility flag per member. Hosts that return a fresh reflective object per lookup discard a changed flag with that object, and this is not modelled.
- Patching the global `Java.use` in place is modelled as an explicit wrapped function, `JavaUse.Hooked`, and the state it changes is passed explicitly.
- The underlying resolver is a fixed function from names to classes, and each successful call allocates a new wrapper object. The resolver's own caching and class loaders are not modelled.
- `JavaUse.Decorate` has a `NotAWrapper` error for a receiver that is not a known object. This case cannot arise from a valid state (`JavaUse.Use` proves that a hit never fails).
- `javaUseMapping` is a plain JavaScript object, so a lookup of a name like `constructor` or `toString` finds an inherited member, which is truthy. The model's mapping holds only the names the after-hook wrote.
- Concurrent calls are not modelled: the cache's check-then-insert is not atomic, and the model is single-threaded.

## Findings

| source | as written | input that shows it | evidently intended | confidence | as-written member | corrected member |
|---|---|---|---|---|---|---|
| agent/FridaUtil.ts:140 | after the read, `get` clears the flag when the field was already accessible, and leaves it on when `get` switched it on, so a successful read negates the flag | a field (`"secret"`, handle 7) whose flag is already on: after `get` the flag is off | clear the flag only when `get` itself switched it on, as `set` (line 150) and the method invoker (line 174) do | medium, not executed; observable only on a host that keeps the flag per member | Fields.GetAsWritten | Fields.Get |
| agent/FridaUtil.ts:129 | the result of `fields.concat(this.wrapper.getFields())` is discarded, so `findall` returns only the declared fields | a class with no declared field and one public inherited field (handle 7): `findall` returns an empty list | return the declared fields followed by the public ones | high, not executed | Fields.FindAllAsWritten | Fields.FindAll |
