/**
 * The index that the container builds, as a value: each type key (a class or an
 * interface) is mapped to the set of object references filed under it. The
 * container class keeps this index in its `objects` field and is proved to
 * update it exactly as the functions below say.
 */
module Catalog {
  import opened JavaRuntime

  /** A type key's entry, by identity: a set of references, so never a duplicate. */
  type TypeIndex = map<TypeKey, set<Ref>>

  /** The entry for `t`; a key that was never filed reads as the empty entry. */
  function Entry(idx: TypeIndex, t: TypeKey): set<Ref>
  {
    if t in idx then idx[t] else {}
  }

  /** No key maps to an empty entry: an entry is only created in order to hold an object. */
  ghost predicate NoEmptyEntries(idx: TypeIndex)
  {
    forall t :: t in idx ==> idx[t] != {}
  }

  /**
   * The keys an object is filed under, in the order they are filed: each
   * interface its concrete class declares directly, then the concrete class.
   */
  function TypesOf(reflection: Reflection, o: Ref): seq<TypeKey>
  {
    var objectClass := reflection.classOf(o);
    reflection.interfacesOf(objectClass) + [objectClass]
  }

  /** Filing one object under one key. */
  function Store(idx: TypeIndex, o: Ref, t: TypeKey): TypeIndex
  {
    idx[t := Entry(idx, t) + {o}]
  }

  /** After filing `o` under `t`, the entry for `t` holds `o` and everything it held before, and nothing else. */
  lemma StoreEffect(idx: TypeIndex, o: Ref, t: TypeKey)
    ensures t in Store(idx, o, t)
    ensures o in Store(idx, o, t)[t]
    ensures forall x :: x in Store(idx, o, t)[t] <==> x == o || x in Entry(idx, t)
  {
  }

  /** Filing under `t` touches no other key: every other key is present, and holds, exactly what it did before. */
  lemma StoreTouchesOnlyItsKey(idx: TypeIndex, o: Ref, t: TypeKey, k: TypeKey)
    requires k != t
    ensures k in Store(idx, o, t) <==> k in idx
    ensures Entry(Store(idx, o, t), k) == Entry(idx, k)
  {
  }

  /** Storing an object already filed under a key leaves the whole index unchanged. */
  lemma StoreIdempotent(idx: TypeIndex, o: Ref, t: TypeKey)
    requires o in Entry(idx, t)
    ensures Store(idx, o, t) == idx
  {
    assert Entry(idx, t) + {o} == idx[t];
  }

  /** Filing one object under each key of `ts`, first to last. */
  function StoreAll(idx: TypeIndex, o: Ref, ts: seq<TypeKey>): TypeIndex
    decreases |ts|
  {
    if ts == [] then idx
    else Store(StoreAll(idx, o, ts[..|ts| - 1]), o, ts[|ts| - 1])
  }

  /** Filing under every key of `ts` adds `o` to the entries of exactly those keys, and creates no other key. */
  lemma {:induction false} StoreAllAt(idx: TypeIndex, o: Ref, ts: seq<TypeKey>, t: TypeKey)
    ensures t in StoreAll(idx, o, ts) <==> t in idx || t in ts
    ensures Entry(StoreAll(idx, o, ts), t) == Entry(idx, t) + (if t in ts then {o} else {})
    decreases |ts|
  {
    if ts != [] {
      var front, last := ts[..|ts| - 1], ts[|ts| - 1];
      assert ts == front + [last];
      StoreAllAt(idx, o, front, t);
    }
  }

  /** Cataloging one object: filing it under every interface its concrete class declares directly, then under that class. */
  function CatalogOne(reflection: Reflection, idx: TypeIndex, o: Ref): TypeIndex
  {
    StoreAll(idx, o, TypesOf(reflection, o))
  }

  /**
   * Cataloging `o` puts it under its concrete class and under each interface
   * that class declares directly, and under no other key; no other key is created.
   */
  lemma CatalogOneAt(reflection: Reflection, idx: TypeIndex, o: Ref, t: TypeKey)
    ensures t in CatalogOne(reflection, idx, o)
        <==> t in idx || t == reflection.classOf(o) || t in reflection.interfacesOf(reflection.classOf(o))
    ensures Entry(CatalogOne(reflection, idx, o), t)
         == Entry(idx, t) + (if t == reflection.classOf(o) || t in reflection.interfacesOf(reflection.classOf(o)) then {o} else {})
  {
    StoreAllAt(idx, o, TypesOf(reflection, o), t);
  }

  /** The objects of `objs` that are filed under `t`, as a set of references. */
  function Implementers(reflection: Reflection, objs: seq<Ref>, t: TypeKey): set<Ref>
  {
    set o | o in objs && t in TypesOf(reflection, o)
  }

  /** Adding one object at the end of the input adds it to the implementers of exactly its own types. */
  lemma ImplementersSnoc(reflection: Reflection, objs: seq<Ref>, o: Ref, t: TypeKey)
    ensures Implementers(reflection, objs + [o], t)
         == Implementers(reflection, objs, t) + (if t in TypesOf(reflection, o) then {o} else {})
  {
    assert forall x :: x in objs + [o] <==> x in objs || x == o;
  }

  /** Cataloging a sequence of objects, first to last. */
  function CatalogAll(reflection: Reflection, idx: TypeIndex, objs: seq<Ref>): TypeIndex
    decreases |objs|
  {
    if objs == [] then idx
    else CatalogOne(reflection, CatalogAll(reflection, idx, objs[..|objs| - 1]), objs[|objs| - 1])
  }

  /**
   * What cataloging a sequence adds under one key: exactly the objects of the
   * sequence whose class is that key or declares it directly, each once however
   * often it occurs; the key is present afterwards iff it was before or some
   * object is filed under it.
   */
  lemma {:induction false} CatalogAllAt(reflection: Reflection, idx: TypeIndex, objs: seq<Ref>, t: TypeKey)
    ensures t in CatalogAll(reflection, idx, objs) <==> t in idx || Implementers(reflection, objs, t) != {}
    ensures Entry(CatalogAll(reflection, idx, objs), t) == Entry(idx, t) + Implementers(reflection, objs, t)
    decreases |objs|
  {
    if objs != [] {
      var front, last := objs[..|objs| - 1], objs[|objs| - 1];
      assert objs == front + [last];
      CatalogAllAt(reflection, idx, front, t);
      ImplementersSnoc(reflection, front, last, t);
      StoreAllAt(CatalogAll(reflection, idx, front), last, TypesOf(reflection, last), t);
    }
  }

  /** Cataloging never leaves an empty entry behind, nor creates one. */
  lemma CatalogAllKeepsEntriesNonEmpty(reflection: Reflection, idx: TypeIndex, objs: seq<Ref>)
    requires NoEmptyEntries(idx)
    ensures NoEmptyEntries(CatalogAll(reflection, idx, objs))
  {
    var r := CatalogAll(reflection, idx, objs);
    forall t | t in r ensures r[t] != {} {
      CatalogAllAt(reflection, idx, objs, t);
    }
  }

  /**
   * The index depends only on which objects were cataloged: neither their
   * order nor how often each occurs makes a difference.
   */
  lemma CatalogAllOrderIndependent(reflection: Reflection, idx: TypeIndex, a: seq<Ref>, b: seq<Ref>)
    requires forall o :: o in a <==> o in b
    ensures CatalogAll(reflection, idx, a) == CatalogAll(reflection, idx, b)
  {
    var ra, rb := CatalogAll(reflection, idx, a), CatalogAll(reflection, idx, b);
    forall t
      ensures t in ra <==> t in rb
      ensures Entry(ra, t) == Entry(rb, t)
    {
      CatalogAllAt(reflection, idx, a, t);
      CatalogAllAt(reflection, idx, b, t);
      assert Implementers(reflection, a, t) == Implementers(reflection, b, t);
    }
    assert ra.Keys == rb.Keys;
    forall t | t in ra ensures ra[t] == rb[t] {
      assert Entry(ra, t) == Entry(rb, t);
    }
  }

  /** Cataloging an object a second time is a no-op. */
  lemma CatalogAllRepeat(reflection: Reflection, idx: TypeIndex, objs: seq<Ref>, o: Ref)
    requires o in objs
    ensures CatalogAll(reflection, idx, objs + [o]) == CatalogAll(reflection, idx, objs)
  {
    CatalogAllOrderIndependent(reflection, idx, objs + [o], objs);
  }

  /** The index built from nothing by cataloging `objs`. */
  function BuildIndex(reflection: Reflection, objs: seq<Ref>): TypeIndex
  {
    CatalogAll(reflection, map[], objs)
  }

  /**
   * The built index holds, under each key, exactly the objects filed under it,
   * has a key exactly for the types some object is filed under, and has no
   * empty entry.
   */
  lemma BuildIndexExact(reflection: Reflection, objs: seq<Ref>)
    ensures forall t :: t in BuildIndex(reflection, objs) <==> Implementers(reflection, objs, t) != {}
    ensures forall t :: Entry(BuildIndex(reflection, objs), t) == Implementers(reflection, objs, t)
    ensures NoEmptyEntries(BuildIndex(reflection, objs))
  {
    forall t
      ensures t in BuildIndex(reflection, objs) <==> Implementers(reflection, objs, t) != {}
      ensures Entry(BuildIndex(reflection, objs), t) == Implementers(reflection, objs, t)
    {
      CatalogAllAt(reflection, map[], objs, t);
    }
    CatalogAllKeepsEntriesNonEmpty(reflection, map[], objs);
  }
}
