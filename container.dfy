/**
 * The default container: an index from type keys (classes and interfaces) to
 * identity maps of the objects filed under them, filled once from a decoded
 * object graph and then only queried.
 */
module Container {
  import opened Wrappers
  import opened JavaRuntime
  import opened Catalog
  import opened Decoder

  /** The exceptions the queries throw. */
  datatype InterfaceError =
    | InvalidInterface(message: string)
    | AmbiguousInterface(message: string)

  /** The exception construction throws. */
  datatype ContextError = InvalidContext(message: string)

  const NullClassPathContextPath := "classPathContextPath may not be null."
  const NullInputStream := "Context file must be valid."
  const NullClassOrInterfaceToExtract := "classOrInterfaceToExtract may not be null"
  const NullClassOrInterface := "classOrInterface may not be null"

  /** The detail of the ambiguity error, naming the type that was asked for. */
  function AmbiguityMessage(t: TypeKey): string
  {
    "Unable to locate unique object instance for class or interface '" + t.name + "'."
  }

  /** No reference occurs twice. */
  predicate NoDuplicates(s: seq<Ref>)
  {
    forall i, j :: 0 <= i < j < |s| ==> s[i] != s[j]
  }

  class DefaultContainer {
    /**
     * Graph of objects: for each class or interface, an identity map holding
     * each object filed under it as both key and value.
     */
    var objects: map<TypeKey, map<Ref, Ref>>

    /** Reflection on the objects this container holds. */
    const reflection: Reflection

    /**
     * The container's invariant: no entry is empty, and each entry maps every
     * object to itself (so its values never repeat a reference).
     */
    ghost predicate Valid()
      reads this
    {
      && (forall t :: t in objects ==> objects[t] != map[])
      && (forall t, o :: t in objects && o in objects[t] ==> objects[t][o] == o)
    }

    /** The index the container holds: for each key, the references filed under it. */
    function Index(): TypeIndex
      reads this
    {
      KeysIndex(objects)
    }

    /** A valid container's index has no empty entry. */
    lemma ValidHasNoEmptyEntries()
      requires Valid()
      ensures NoEmptyEntries(Index())
    {
    }

    /** The state after the field initialiser: an empty index. */
    constructor (reflection: Reflection)
      ensures Valid() && Index() == map[] && this.reflection == reflection
    {
      this.reflection := reflection;
      objects := map[];
    }

    /** Files `o` under `t`, creating the entry for `t` first if there is none. */
    method StoreObjectForType(o: Ref, t: TypeKey)
      requires Valid()
      modifies this
      ensures Valid()
      ensures Index() == Store(old(Index()), o, t)
      ensures objects.Keys == old(objects).Keys + {t}
      ensures forall k :: k in old(objects) && k != t ==> objects[k] == old(objects)[k]
      ensures t in old(objects) && o in old(objects)[t] ==> objects == old(objects)
    {
      if t !in objects {
        objects := objects[t := map[]];
      }
      var currentObjectMap := objects[t];
      if o !in currentObjectMap {
        objects := objects[t := currentObjectMap[o := o]];
      }
      if t in old(objects) && o in old(objects)[t] {
        assert objects == old(objects);
        StoreIdempotent(old(Index()), o, t);
      } else {
        ghost var entry := (if t in old(objects) then old(objects)[t] else map[])[o := o];
        assert objects == old(objects)[t := entry];
        KeysIndexUpdate(old(objects), t, entry);
        assert entry.Keys == Entry(old(Index()), t) + {o};
      }
    }

    /** Files `o` under each interface its class declares directly, then under its class. */
    method CatalogObject(o: Ref)
      requires Valid()
      modifies this
      ensures Valid()
      ensures Index() == CatalogOne(reflection, old(Index()), o)
    {
      var objectClass := reflection.classOf(o);
      var interfaces := reflection.interfacesOf(objectClass);
      for i := 0 to |interfaces|
        invariant Valid()
        invariant Index() == StoreAll(old(Index()), o, interfaces[..i])
      {
        StoreObjectForType(o, interfaces[i]);
        assert interfaces[..i + 1][..i] == interfaces[..i];
      }
      StoreObjectForType(o, objectClass);
      ghost var types := interfaces + [objectClass];
      assert types == TypesOf(reflection, o);
      assert types[..|types| - 1] == interfaces[..|interfaces|];
    }

    /**
     * Reads the record at cursor position `pos` and catalogs it if it is an
     * object; answers whether another object might follow. Reading past the
     * last record counts as reading `null`.
     */
    method AttemptSingleObjectExtraction(records: Records, pos: nat) returns (another: bool)
      requires Valid()
      modifies this
      ensures Valid()
      ensures another <==> pos < |records| && records[pos].Some?
      ensures another ==> Index() == CatalogOne(reflection, old(Index()), records[pos].value)
      ensures !another ==> objects == old(objects)
    {
      var decodedObject: Option<Ref>;
      match ReadObject(records, pos) {
        case Decoded(decoded) =>
          decodedObject := decoded;
        case ArrayIndexOutOfBounds =>
          decodedObject := None;
      }
      if decodedObject.Some? {
        CatalogObject(decodedObject.value);
      }
      another := decodedObject.Some?;
    }

    /** Reads and catalogs objects until the first `null` read. */
    method ProcessObjects(records: Records)
      requires Valid()
      modifies this
      ensures Valid()
      ensures Index() == CatalogAll(reflection, old(Index()), Loaded(records))
    {
      ghost var loaded := Loaded(records);
      var pos := 0;
      var anotherObjectMightBeAvailable := true;
      while anotherObjectMightBeAvailable
        invariant Valid()
        invariant anotherObjectMightBeAvailable ==> pos <= |loaded|
        invariant anotherObjectMightBeAvailable ==> Index() == CatalogAll(reflection, old(Index()), loaded[..pos])
        invariant !anotherObjectMightBeAvailable ==> pos == |loaded| + 1
        invariant !anotherObjectMightBeAvailable ==> Index() == CatalogAll(reflection, old(Index()), loaded)
        decreases |loaded| + 1 - pos
      {
        anotherObjectMightBeAvailable := AttemptSingleObjectExtraction(records, pos);
        if anotherObjectMightBeAvailable {
          assert pos < |loaded| && records[pos].value == loaded[pos];
          assert loaded[..pos + 1][..pos] == loaded[..pos];
        } else {
          assert pos == |loaded|;
          assert loaded[..pos] == loaded;
        }
        pos := pos + 1;
      }
    }

    /**
     * Builds a container from a stream: a `null` stream is refused before
     * anything is read.
     */
    static method FromInputStream(inputStream: Option<Records>, reflection: Reflection)
      returns (r: Result<DefaultContainer, ContextError>)
      ensures inputStream.None? ==> r == Failure(InvalidContext(NullInputStream))
      ensures inputStream.Some? ==> r.Success? && fresh(r.value) && r.value.Valid()
      ensures inputStream.Some? ==> r.value.reflection == reflection
      ensures inputStream.Some? ==> r.value.Index() == BuildIndex(reflection, Loaded(inputStream.value))
    {
      if inputStream.None? {
        return Failure(InvalidContext(NullInputStream));
      }
      var container := new DefaultContainer(reflection);
      container.ProcessObjects(inputStream.value);
      r := Success(container);
    }

    /**
     * Builds a container from a classpath resource: a `null` path is refused
     * before anything is read. `getResourceAsStream` resolves the path; when it
     * yields `null` the decoder reads nothing and the container is empty.
     */
    static method FromClassPath(classPathContextPath: Option<string>,
                                getResourceAsStream: string -> Option<Records>,
                                reflection: Reflection)
      returns (r: Result<DefaultContainer, ContextError>)
      ensures classPathContextPath.None? ==> r == Failure(InvalidContext(NullClassPathContextPath))
      ensures classPathContextPath.Some? ==> r.Success? && fresh(r.value) && r.value.Valid()
      ensures classPathContextPath.Some? ==> r.value.reflection == reflection
      ensures classPathContextPath.Some? ==>
        r.value.Index() == BuildIndex(reflection, Loaded(Open(getResourceAsStream(classPathContextPath.value))))
    {
      if classPathContextPath.None? {
        return Failure(InvalidContext(NullClassPathContextPath));
      }
      var inputStream := getResourceAsStream(classPathContextPath.value);
      var container := new DefaultContainer(reflection);
      container.ProcessObjects(Open(inputStream));
      r := Success(container);
    }

    /**
     * The one object filed under the requested type, or `null` when there is
     * none; more than one is an ambiguity error, and a `null` request an
     * invalid-interface error.
     */
    method GetObjectThatImplementsOrNull(classOrInterfaceToExtract: Option<TypeKey>)
      returns (r: Result<Option<Ref>, InterfaceError>)
      requires Valid()
      ensures classOrInterfaceToExtract.None? ==> r == Failure(InvalidInterface(NullClassOrInterfaceToExtract))
      ensures classOrInterfaceToExtract.Some? ==>
        var t := classOrInterfaceToExtract.value;
        && (|Entry(Index(), t)| == 0 ==> r == Success(None))
        && (|Entry(Index(), t)| == 1 ==> r.Success? && r.value.Some? && Entry(Index(), t) == {r.value.value})
        && (|Entry(Index(), t)| > 1 ==> r == Failure(AmbiguousInterface(AmbiguityMessage(t))))
    {
      if classOrInterfaceToExtract.None? {
        return Failure(InvalidInterface(NullClassOrInterfaceToExtract));
      }
      var t := classOrInterfaceToExtract.value;
      var objectInstance: Option<Ref> := None;
      if t !in objects {
        return Success(None);
      }
      var objectMap := objects[t];
      if |objectMap| > 1 {
        return Failure(AmbiguousInterface(AmbiguityMessage(t)));
      }
      if |objectMap| != 0 {
        var key :| key in objectMap;
        objectInstance := Some(objectMap[key]);
        SoleElement(objectMap.Keys, key);
      }
      r := Success(objectInstance);
    }

    /**
     * Every object filed under the requested type, each exactly once, in no
     * promised order; an unknown type gives the empty list, and a `null`
     * request an invalid-interface error.
     */
    method GetObjectsThatImplement(classOrInterfaceToExtract: Option<TypeKey>)
      returns (r: Result<seq<Ref>, InterfaceError>)
      requires Valid()
      ensures classOrInterfaceToExtract.None? ==> r == Failure(InvalidInterface(NullClassOrInterfaceToExtract))
      ensures classOrInterfaceToExtract.Some? ==>
        && r.Success?
        && NoDuplicates(r.value)
        && (forall o :: o in r.value <==> o in Entry(Index(), classOrInterfaceToExtract.value))
        && |r.value| == |Entry(Index(), classOrInterfaceToExtract.value)|
    {
      if classOrInterfaceToExtract.None? {
        return Failure(InvalidInterface(NullClassOrInterfaceToExtract));
      }
      var t := classOrInterfaceToExtract.value;
      var objectsList: seq<Ref> := [];
      if t in objects {
        var objectMap := objects[t];
        var remaining := objectMap.Keys;
        while remaining != {}
          invariant remaining <= objectMap.Keys
          invariant NoDuplicates(objectsList)
          invariant forall o :: o in objectsList <==> o in objectMap && o !in remaining
          invariant |objectsList| + |remaining| == |objectMap|
          decreases remaining
        {
          var key :| key in remaining;
          objectsList := objectsList + [objectMap[key]];
          remaining := remaining - {key};
        }
      }
      r := Success(objectsList);
    }

    /**
     * Whether some object is filed under the requested type: true exactly when
     * the all-matching query would answer a non-empty list, which for a valid
     * container is exactly when the type is a key of the index.
     */
    method ContainsObjectThatImplements(classOrInterface: Option<TypeKey>)
      returns (r: Result<bool, InterfaceError>)
      requires Valid()
      ensures classOrInterface.None? ==> r == Failure(InvalidInterface(NullClassOrInterface))
      ensures classOrInterface.Some? ==> r == Success(classOrInterface.value in Index())
    {
      if classOrInterface.None? {
        return Failure(InvalidInterface(NullClassOrInterface));
      }
      var all := GetObjectsThatImplement(classOrInterface);
      r := Success(|all.value| != 0);
    }
  }

  /**
   * The three queries, asked about the same type of the same container, agree:
   * the existence query answers whether the all-matching list is non-empty,
   * the single-object query answers `null` exactly when that list is empty,
   * its sole element exactly when it has one, and fails exactly when it has more.
   */
  method QueriesAgree(container: DefaultContainer, t: TypeKey)
    returns (single: Result<Option<Ref>, InterfaceError>, all: Result<seq<Ref>, InterfaceError>, contains: Result<bool, InterfaceError>)
    requires container.Valid()
    ensures all.Success? && contains.Success?
    ensures contains.value <==> all.value != []
    ensures single == Success(None) <==> all.value == []
    ensures single.Success? && single.value.Some? <==> |all.value| == 1
    ensures single.Success? && single.value.Some? ==> all.value == [single.value.value]
    ensures single.Failure? <==> |all.value| > 1
  {
    single := container.GetObjectThatImplementsOrNull(Some(t));
    all := container.GetObjectsThatImplement(Some(t));
    contains := container.ContainsObjectThatImplements(Some(t));
    ghost var entry := Entry(container.Index(), t);
    assert |all.value| == |entry|;
    container.ValidHasNoEmptyEntries();
    assert contains.value <==> |entry| != 0;
    if |entry| == 1 {
      assert all.value[0] in entry;
    }
  }

  /** The index a map of identity maps stands for: each key's entry is the key set of its identity map. */
  function KeysIndex(objects: map<TypeKey, map<Ref, Ref>>): TypeIndex
  {
    map t | t in objects :: objects[t].Keys
  }

  lemma KeysIndexUpdate(objects: map<TypeKey, map<Ref, Ref>>, t: TypeKey, m: map<Ref, Ref>)
    ensures KeysIndex(objects[t := m]) == KeysIndex(objects)[t := m.Keys]
  {
  }

  /** A set with one element and no more is that element alone. */
  lemma SoleElement(s: set<Ref>, x: Ref)
    requires x in s && |s| == 1
    ensures s == {x}
  {
    assert |s - {x}| == 0;
    assert s - {x} == {};
  }
}
