# Zyre serialization: the PrivateSetter access policy

NetMQ.Zyre sends small control-plane objects between peers as JSON text encoded in UTF-8.
The static `Serialization` class does this with Newtonsoft.Json and a custom contract
resolver, `PrivateSetter`. The resolver decides two things for every type:

* **which storage slots are serialised** (`GetSerializableMembers`): every instance
  property, public or not, followed by every instance field that the compiler did not
  generate (auto-property backing fields carry `CompilerGeneratedAttribute` and are
  skipped), joined with LINQ `Union`, which drops duplicates;
* **what each slot may do** (`CreateProperty`): starting from the flags chosen by the
  default resolver, a property that is not writable becomes writable exactly when its
  declaring type has an instance method `set_<name>` of any visibility, a field is
  forced readable and writable, and a property's readability is left alone.

The byte boundary (`BinarySerialize`, `BinaryDeserialize`) turns the JSON text into bytes
with UTF-8 and back with the same UTF-8 encoding.

Files and modules:

* `enumerable.dfy` — `Enumerable`: LINQ `Where`, `Select` (for `Cast<MemberInfo>`), `Any`
  and `Union`. `Union` is specified as the distinct elements of the first sequence
  followed by those elements of the second that the first lacks, in first-occurrence
  order.
* `reflection.dfy` — `Reflection`: the type metadata as plain data (`PropertyInfo`,
  `FieldInfo`, `MethodInfo`, the declaring `TypeHandle`), `BindingFlags`, and
  `GetProperties`/`GetFields`/`GetMethods` as filters on that data.
* `private_setter.dfy` — `PrivateSetter`: `HasSetter`, `HasGetter`, the member list,
  the access function `Resolve`, and `CreateProperty`. `CreateProperty` is an imperative
  method that updates a `JsonProperty` object's `readable`/`writable` fields in place and
  is proved against `Resolve`.
* `point_scenario.dfy` — `PointScenario`: the type `Point { X: public get/set; Y: public
  get, private set }` worked through the policy.
* `serialization.dfy` — `Serialization`: the text/byte boundary and the two entry points.
  The JSON converter and the UTF-8 codec are passed in as an `Environment` of functions.

`HasGetter` (Serialization.cs:46-49) suggests that an unreadable property was meant to
become readable when a getter exists. Nothing calls it, and `CreateProperty` sets
`Readable` only for fields (lines 72-76). The model follows the code: `Resolve` keeps a
property's readability unchanged, and `ReadableIgnoresGetter` states the consequence.

## Model

| member | source | states |
|---|---|---|
| `Enumerable.Where` | src/NetMQ.Zyre.Core/Serialization.cs:54 | keeps exactly the elements that pass the test, never grows, and a duplicate-free input stays duplicate-free |
| `Enumerable.WhereAppend` | src/NetMQ.Zyre.Core/Serialization.cs:54 | filtering a concatenation is the concatenation of the filtered parts, so the kept elements stay in their original order |
| `Enumerable.WhereSingleton` | src/NetMQ.Zyre.Core/Serialization.cs:54 | a single element is kept exactly when it passes the test |
| `Enumerable.WhereCounts` | src/NetMQ.Zyre.Core/Serialization.cs:54 | every element that passes the test keeps its number of occurrences; every other element is dropped |
| `Enumerable.Select` | src/NetMQ.Zyre.Core/Serialization.cs:56 | the cast to `MemberInfo` keeps length and maps each position to the image of the element there |
| `Enumerable.Any` | src/NetMQ.Zyre.Core/Serialization.cs:43 | true exactly when some element passes the test |
| `Enumerable.DistinctFrom` | src/NetMQ.Zyre.Core/Serialization.cs:56 | yields exactly the input elements not yet seen, each once |
| `Enumerable.DistinctFromAppend` | src/NetMQ.Zyre.Core/Serialization.cs:56 | streaming `a + b` yields `a`'s new elements and then only those of `b` that `a` did not contain |
| `Enumerable.DistinctFromIdentity` | src/NetMQ.Zyre.Core/Serialization.cs:56 | a duplicate-free input that avoids the seen set streams through unchanged |
| `Enumerable.Union` | src/NetMQ.Zyre.Core/Serialization.cs:56 | contains exactly the elements of both inputs, each once, first input's elements first; equals plain concatenation when both inputs are duplicate-free and disjoint |
| `Reflection.GetProperties` | src/NetMQ.Zyre.Core/Serialization.cs:53 | returns exactly the type's properties whose scope and visibility the flags select; no duplicates added |
| `Reflection.GetFields` | src/NetMQ.Zyre.Core/Serialization.cs:54 | returns exactly the type's fields whose scope and visibility the flags select; no duplicates added |
| `Reflection.GetMethods` | src/NetMQ.Zyre.Core/Serialization.cs:43 | returns exactly the declaring type's methods whose scope and visibility the flags select |
| `PrivateSetter.HasSetter` | src/NetMQ.Zyre.Core/Serialization.cs:41-44 | true exactly when the property's declaring type has an instance method named `"set_" + name`, whatever its visibility |
| `PrivateSetter.HasGetter` | src/NetMQ.Zyre.Core/Serialization.cs:46-49 | true exactly when the property's declaring type has an instance method named `"get_" + name`, whatever its visibility |
| `PrivateSetter.PropertyMembers` | src/NetMQ.Zyre.Core/Serialization.cs:53 | the properties part contains exactly the instance properties, public or not, compiler-generated or not |
| `PrivateSetter.FieldMembers` | src/NetMQ.Zyre.Core/Serialization.cs:54 | the fields part contains exactly the instance fields without `CompilerGeneratedAttribute`, public or not |
| `PrivateSetter.PropertiesBeforeFields` | src/NetMQ.Zyre.Core/Serialization.cs:56 | in the union of a property list with a field list, no field precedes a property |
| `PrivateSetter.EmptyExactlyWhenNothingEligible` | src/NetMQ.Zyre.Core/Serialization.cs:51-57 | the member list is empty exactly when every property is static and every field is static or compiler-generated |
| `PrivateSetter.GetSerializableMembers` | src/NetMQ.Zyre.Core/Serialization.cs:51-57 | a member is listed exactly when it is an instance property or a non-compiler-generated instance field; no member twice; all properties before any field; empty exactly when nothing is eligible |
| `PrivateSetter.MembersInReflectionOrder` | src/NetMQ.Zyre.Core/Serialization.cs:53-56 | when reflection reports each member once, the union drops nothing: instance properties in reflection order, then eligible fields in reflection order |
| `PrivateSetter.OverloadedIndexersAllListed` | src/NetMQ.Zyre.Core/Serialization.cs:53-56 | two instance indexers of one type that differ only in their index parameters are both listed, as distinct members |
| `PrivateSetter.Resolve` | src/NetMQ.Zyre.Core/Serialization.cs:62-76 | writable never becomes false; a non-writable property ends writable exactly when `HasSetter` holds; a field ends readable and writable whatever it arrived with; a property's readable flag is returned unchanged |
| `PrivateSetter.ReadableIgnoresGetter` | src/NetMQ.Zyre.Core/Serialization.cs:72-76 | a property left unreadable stays unreadable even when a getter exists, because `HasGetter` is never consulted |
| `PrivateSetter.HiddenSetterIsUsed` | src/NetMQ.Zyre.Core/Serialization.cs:62-65 | any instance `set_<name>` method on the declaring type, private included, makes the property writable |
| `PrivateSetter.JsonProperty.constructor` | src/NetMQ.Zyre.Core/Serialization.cs:61 | the slot as the default resolver hands it over, carrying the given name and flags |
| `PrivateSetter.CreateProperty` | src/NetMQ.Zyre.Core/Serialization.cs:59-78 | updates the slot object in place so that its flags equal `Resolve` of the member and its old flags, changes nothing else, and returns the same object |
| `PointScenario.PointPolicy` | src/NetMQ.Zyre.Core/Serialization.cs:51-78 | for `Point`, only `X` and `Y` are serialised (no backing field), and `Y`, with its private setter, is made writable |
| `PointScenario.PointMembers` | src/NetMQ.Zyre.Core/Serialization.cs:51-57 | the member list of `Point` is exactly `[X, Y]` |
| `PointScenario.PointProperties` | src/NetMQ.Zyre.Core/Serialization.cs:53 | both properties of `Point` are listed, in order |
| `PointScenario.PointFields` | src/NetMQ.Zyre.Core/Serialization.cs:54 | both compiler-generated backing fields of `Point` are filtered out |
| `PointScenario.PointSetter` | src/NetMQ.Zyre.Core/Serialization.cs:62-65 | `Y` arrives readable but not writable and leaves readable and writable |
| `Serialization.BinarySerialize` | src/NetMQ.Zyre.Core/Serialization.cs:113-116 | serialisation succeeds exactly when the JSON layer does not throw |
| `Serialization.TextSurvivesBytes` | src/NetMQ.Zyre.Core/Serialization.cs:96-104 | with a lossless UTF-8 codec, decoding the serialised bytes gives back exactly the JSON text that was produced |
| `Serialization.RoundTrip` | src/NetMQ.Zyre.Core/Serialization.cs:113-127 | when the JSON layer produced text, deserialising the serialised bytes gives the same outcome as the JSON layer's own decoding of that text |

`ToEncodedByteArray`, `FromEncodedByteArrayToStr`, `ToUTF8ByteArray`,
`FromUTF8ByteArrayToStr` and `BinaryDeserialize` (lines 83-104, 124-127) are one-line
compositions; what they guarantee together with `BinarySerialize` is stated by
`TextSurvivesBytes` and `RoundTrip`.

## Left out

- Newtonsoft.Json itself (`JsonConvert.SerializeObject`/`DeserializeObject`, embedded type names, ISO dates and `DateTimeOffset`, lines 23-31, 115, 126): a foreign library. It is a pair of functions in `Serialization.Environment`, and its exceptions, in either direction, are a `Failure` result.
- `DefaultContractResolver.CreateProperty` (line 61) and its `memberSerialization` argument: the flags it chooses are the input slot of `CreateProperty`.
- Real reflection: a `TypeInfo` lists the properties and fields that `GetProperties`/`GetFields` report for the declared and inherited surface. Which inherited private members reflection hides is not modelled. Member identity is structural equality of the metadata (name, declaring type, index parameters and attributes) rather than reference identity of `MemberInfo` objects.
- A `MemberInfo` that is neither a property nor a field: `GetSerializableMembers` never produces one, so `CreateProperty`'s fall-through for it is not modelled.
- `System.Text.UTF8Encoding` internals: the codec is a parameter, and the round trip assumes it is lossless. Dafny strings hold only Unicode scalar values. A .NET string with an unpaired UTF-16 surrogate, which UTF-8 would replace with U+FFFD, is therefore not representable.
- A null byte array passed to `BinaryDeserialize`, which throws at line 92: a `seq<byte>` cannot be null.
- Serialization.RoundTrip: states only that the byte boundary adds no loss. Whether the JSON layer restores the object belongs to the library.
- The static settings object `jss`, the resolver's per-type contract cache and its thread safety: ambient state and concurrency, outside a sequential model.
