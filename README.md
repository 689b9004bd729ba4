# Tapioca container core in Dafny

Tapioca is a small inversion-of-control container. It is built once from
a persisted object graph: an XML stream read with `java.beans.XMLDecoder`,
or a resource found on the class path. It then answers three queries
about the objects it holds:

- the single object that implements a class or interface (null when
  there is none, an error when there are several);
- all such objects;
- whether any exists.

Objects are told apart by identity, not by `equals`.

This project models the engine behind those queries,
`DefaultContainerImpl`, and the path helpers of `ClassPathUtils` that
tests and callers use to locate a context file. Its modules are:

- `JavaRuntime`: what the model needs from the JVM.
  - `Ref` is an object reference, compared by identity.
  - `TypeKey` is a `java.lang.Class`.
  - `Reflection` holds `getClass`, `getInterfaces` and
    `getPackage().getName()` as total functions. They are inputs.
- `Decoder`: the XML decoder seen as a cursor over the records of a
  stream.
  - A record is a decoded root object or a null.
  - Reading past the last record raises `ArrayIndexOutOfBoundsException`,
    which the container catches and treats as null.
  - `Loaded` is the list of objects the container catalogs: every record
    before the first null or the end.
- `Catalog`: the abstract state. It is a map from each type to the set
  of objects cataloged under it. It is built by the left folds `Store`,
  `StoreAll`, `CatalogOne` and `CatalogAll`, which mirror
  `storeObjectForType`, the interface loop of `catalogObject`, and the
  read loop of `processObjects`.
  - `Implementers` says which objects belong under a type without
    referring to the fold.
  - The lemmas connect the fold to that definition. They also show that
    the result depends neither on input order nor on repetition.
- `Container`: the class `DefaultContainer`.
  - Its field `objects` is the `HashMap<Class, IdentityHashMap>` that its
    methods update in place.
  - `Valid()` is its invariant: no entry is empty, and every inner map
    maps each object to itself.
  - Each method is proved against the `Catalog` function it implements.
  - Each query is proved against the abstract entry.
  - The two Java constructors become static methods that return a
    `Result`, so that their `InvalidContextException` can be modelled.
- `ClassPathUtils`: the prefix builder and `String.replace`. The prefix
  is `/` + the package with `.` replaced by `/` + `/`. The module proves
  that this prefix is unique, that the package can be read back from it,
  and that it contains no `.`.
- `Scenario`: a concrete context of three objects, two interfaces and a
  null record followed by a fourth object. The queries on it give the
  answers the test suite expects:
  - ambiguity for a shared interface;
  - a single object for a concrete class;
  - an empty list and `false` for an unrelated type.

Three behaviours of the code that a reader might not expect:

- An unresolved class-path resource is not rejected
  (`DefaultContainerImpl.java:55-57`). `getResourceAsStream` returns null,
  the constructor passes that stream on unchecked, and `XMLDecoder` on a
  null stream yields no objects, so the result is an empty container
  rather than an `InvalidContextException`.
- The list of all matching objects is copied from an `IdentityHashMap`'s
  values (`DefaultContainerImpl.java:187-190`), whose iteration order is
  unspecified. The model states the list's contents, its size and that it
  has no duplicates, but no order.
- The documentation of `getObjectsThatImplement` (`Container.java:46`)
  speaks of returning null when there is no implementer, but the
  implementation returns an empty list. The model follows the
  implementation.

## Model

| member | source | states |
|---|---|---|
| Catalog.StoreEffect | tapioca-core/src/main/java/com/unboundedprime/tapioca/core/impl/DefaultContainerImpl.java:135-145 | after storing o under t, t is a key and its entry is exactly the old entry plus o |
| Catalog.StoreTouchesOnlyItsKey | tapioca-core/src/main/java/com/unboundedprime/tapioca/core/impl/DefaultContainerImpl.java:135-145 | storing under t leaves every other type's presence and entry unchanged |
| Catalog.StoreIdempotent | tapioca-core/src/main/java/com/unboundedprime/tapioca/core/impl/DefaultContainerImpl.java:142-144 | storing an object already present under t (same identity) changes nothing |
| Catalog.StoreAllAt | tapioca-core/src/main/java/com/unboundedprime/tapioca/core/impl/DefaultContainerImpl.java:119-125 | storing o under each type of a list makes a type a key iff it was one or is listed, and adds o to exactly the listed types' entries |
| Catalog.CatalogOneAt | tapioca-core/src/main/java/com/unboundedprime/tapioca/core/impl/DefaultContainerImpl.java:115-128 | cataloging o adds o to the entry of its concrete class and of each of its declared interfaces, and to no other entry |
| Catalog.CatalogAllAt | tapioca-core/src/main/java/com/unboundedprime/tapioca/core/impl/DefaultContainerImpl.java:78-128 | after cataloging a sequence, each type's entry is its old entry plus exactly the objects whose class is that type or declares it as an interface |
| Catalog.CatalogAllKeepsEntriesNonEmpty | tapioca-core/src/main/java/com/unboundedprime/tapioca/core/impl/DefaultContainerImpl.java:135-145 | cataloging never creates an empty entry (a key is created only together with its first object) |
| Catalog.CatalogAllOrderIndependent | tapioca-core/src/main/java/com/unboundedprime/tapioca/core/impl/DefaultContainerImpl.java:78-145 | two sequences with the same objects, in any order and with any repetition, build the same index |
| Catalog.CatalogAllRepeat | tapioca-core/src/main/java/com/unboundedprime/tapioca/core/impl/DefaultContainerImpl.java:142-144 | cataloging an object a second time leaves the index unchanged (identity deduplication) |
| Catalog.BuildIndexExact | tapioca-core/src/main/java/com/unboundedprime/tapioca/core/impl/DefaultContainerImpl.java:78-128 | a container built from a sequence has a key for a type iff some object implements it, its entry is exactly those implementers, and no entry is empty |
| Decoder.Loaded | tapioca-core/src/main/java/com/unboundedprime/tapioca/core/impl/DefaultContainerImpl.java:83-108 | the objects read are the records before the first null record or the end of the stream, in stream order |
| Container.DefaultContainer.constructor | tapioca-core/src/main/java/com/unboundedprime/tapioca/core/impl/DefaultContainerImpl.java:43 | a new container starts with an empty object graph that satisfies the invariant |
| Container.DefaultContainer.ValidHasNoEmptyEntries | tapioca-core/src/main/java/com/unboundedprime/tapioca/core/impl/DefaultContainerImpl.java:136-143 | the container's invariant implies that every cataloged type has at least one object |
| Container.DefaultContainer.StoreObjectForType | tapioca-core/src/main/java/com/unboundedprime/tapioca/core/impl/DefaultContainerImpl.java:135-145 | keeps the invariant; the new index is Store of the old one; the key set gains only t; other entries are untouched; an object already present leaves the graph identical |
| Container.DefaultContainer.CatalogObject | tapioca-core/src/main/java/com/unboundedprime/tapioca/core/impl/DefaultContainerImpl.java:115-128 | keeps the invariant and leaves the index equal to CatalogOne of the old one, i.e. o stored under each interface and then its class |
| Container.DefaultContainer.AttemptSingleObjectExtraction | tapioca-core/src/main/java/com/unboundedprime/tapioca/core/impl/DefaultContainerImpl.java:95-109 | returns true iff a non-null object was read at the cursor (a read past the end counts as null); catalogs it on true and changes nothing on false |
| Container.DefaultContainer.ProcessObjects | tapioca-core/src/main/java/com/unboundedprime/tapioca/core/impl/DefaultContainerImpl.java:78-88 | the read loop terminates and leaves the index equal to CatalogAll of the old index over the loaded objects |
| Container.DefaultContainer.FromInputStream | tapioca-core/src/main/java/com/unboundedprime/tapioca/core/impl/DefaultContainerImpl.java:65-71 | a null stream fails with InvalidContext and its message; otherwise a fresh valid container whose index is BuildIndex of the stream's loaded objects |
| Container.DefaultContainer.FromClassPath | tapioca-core/src/main/java/com/unboundedprime/tapioca/core/impl/DefaultContainerImpl.java:50-58 | a null path fails with InvalidContext and its message; otherwise a fresh valid container built from whatever the resolved resource yields, which is nothing for an unresolved resource |
| Container.DefaultContainer.GetObjectThatImplementsOrNull | tapioca-core/src/main/java/com/unboundedprime/tapioca/core/impl/DefaultContainerImpl.java:150-174 | null type fails with InvalidInterface; no implementer gives null; exactly one gives that object; more than one fails with AmbiguousInterface and the message naming the type |
| Container.DefaultContainer.GetObjectsThatImplement | tapioca-core/src/main/java/com/unboundedprime/tapioca/core/impl/DefaultContainerImpl.java:179-194 | null type fails with InvalidInterface; otherwise a duplicate-free list holding exactly the type's entry (empty, never null, for an unknown type) |
| Container.DefaultContainer.ContainsObjectThatImplements | tapioca-core/src/main/java/com/unboundedprime/tapioca/core/impl/DefaultContainerImpl.java:199-207 | null type fails with InvalidInterface; otherwise true iff the type has a cataloged object |
| Container.QueriesAgree | tapioca-core/src/main/java/com/unboundedprime/tapioca/core/impl/DefaultContainerImpl.java:150-207 | on one container the three queries agree: contains iff the list is non-empty; null iff empty; a single object iff the list has one element, which is that object; ambiguity iff more than one |
| ClassPathUtils.Replace | tapioca-utilities/src/main/java/com/unboundedprime/tapioca/utilities/util/ClassPathUtils.java:52 | String.replace for one character: same length, every target occurrence replaced and every other character kept |
| ClassPathUtils.ReplaceRemovesTarget | tapioca-utilities/src/main/java/com/unboundedprime/tapioca/utilities/util/ClassPathUtils.java:52 | after replacing with a different character no occurrence of the target is left |
| ClassPathUtils.ReplaceAbsentIsIdentity | tapioca-utilities/src/main/java/com/unboundedprime/tapioca/utilities/util/ClassPathUtils.java:52 | replacing a character that does not occur returns the string unchanged |
| ClassPathUtils.ReplaceRoundTrip | tapioca-utilities/src/main/java/com/unboundedprime/tapioca/utilities/util/ClassPathUtils.java:52 | when the replacement does not occur in the input, replacing back restores the input |
| ClassPathUtils.PackagePathUnique | tapioca-utilities/src/main/java/com/unboundedprime/tapioca/utilities/util/ClassPathUtils.java:51-53 | at most one string is the class-path prefix of a given package |
| ClassPathUtils.PackagePathRecoversPackage | tapioca-utilities/src/main/java/com/unboundedprime/tapioca/utilities/util/ClassPathUtils.java:51-53 | for a package name without '/', stripping the outer separators and turning '/' back into '.' gives the package name |
| ClassPathUtils.GenerateClassPathPrefixForClass | tapioca-utilities/src/main/java/com/unboundedprime/tapioca/utilities/util/ClassPathUtils.java:44-56 | a null class fails with IllegalArgument and its message; otherwise the result is '/' + package with '.' as '/' + '/' and holds no '.' |
| ClassPathUtils.GenerateClassPathPrefixForFileInSamePackageAs | tapioca-utilities/src/main/java/com/unboundedprime/tapioca/utilities/util/ClassPathUtils.java:66-79 | a null object fails first, then a null file name, each with its message; otherwise the package prefix of the object's class followed by the file name |
| Scenario.RecordsLoadThree | tapioca-core/src/main/java/com/unboundedprime/tapioca/core/impl/DefaultContainerImpl.java:83-108 | in the scenario stream, loading stops at the null record, so the object after it is never cataloged |
| Scenario.BuildScenario | tapioca-core/src/main/java/com/unboundedprime/tapioca/core/impl/DefaultContainerImpl.java:65-128 | building the scenario container gives each interface exactly its implementers, each class its instance, and no key for an unrelated type |
| Scenario.RunScenario | tapioca-core/src/test/java/com/unboundedprime/tapioca/core/ContainerTest.java:93-199 | a shared interface lists both implementers and is ambiguous for the single query; a concrete class yields its one instance; an unrelated type yields an empty list and false |

## Left out

- XML parsing is not modelled. The `XMLDecoder` becomes a list of
  already-decoded records, and `xmlDecoder.close()` is I/O.
- A malformed payload is not modelled. `XMLDecoder` reports it to its
  exception listener; the constructors do not raise
  `InvalidContextException` for it.
- `Class.getResourceAsStream` is an input function from path to an
  optional stream. Class-path lookup is I/O.
- `getClass`, `getInterfaces` and `getPackage().getName()` are inputs of
  the `Reflection` record. Only interfaces the class itself declares are
  cataloged, as in the code.
- A class in the default package is not modelled. There, `getPackage()`
  returns null and `generateClassPathPrefixForClass` throws
  `NullPointerException`.
- `ClassPathUtils.Replace`: `String.replace(CharSequence, CharSequence)` is
  modelled only for the one-character arguments `"."` and `"/"` that the
  code passes.
- `catalogObject` reads `objects.get(interfaceClass)` into an unused local.
  That read has no effect and is not modelled.
- `Container.DefaultContainer.GetObjectsThatImplement` states no element
  order. `IdentityHashMap` iteration order is unspecified, so the model
  chooses keys nondeterministically.
- `Container.DefaultContainer.GetObjectThatImplementsOrNull` does not
  model which object `values().get(0)` returns when there are several.
  That case throws first.
- The inner identity maps are values in the model, not shared mutable
  objects. They never escape the container, so no aliasing is lost.
- Not modelled:
  - the generic casts to `T`;
  - `Container.Builder`, a facade that forwards to the two constructors;
  - the private and protected constructors that throw
    `UnsupportedOperationException`;
  - the exception classes, which only carry a message.
- Classes are identified by name (`TypeKey`). In Java, the `HashMap`
  keys are `Class` objects compared by identity, so two classes with the
  same name from different class loaders are distinct keys there and one
  key here. A context decoded by a single `XMLDecoder` does not meet
  that case.
- Concurrency is not modelled. The container is only read after
  construction.
