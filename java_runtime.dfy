/**
 * What the container needs from the Java runtime: object identity, class
 * objects, and the three reflective queries it makes. The reflective queries
 * are not computed here; they are handed in as a `Reflection` value.
 */
module JavaRuntime {

  /**
   * A Java object reference. Two `Ref`s are equal exactly when they denote the
   * same object, so `==` on `Ref` is Java's `==` (identity), never `equals`.
   */
  datatype Ref = Ref(address: nat)

  /** A `java.lang.Class` object (a class or an interface), named by its binary name. */
  datatype TypeKey = TypeKey(name: string)

  /**
   * The answers of Java reflection, taken as inputs:
   *  - `classOf(o)` is `o.getClass()`;
   *  - `interfacesOf(c)` is `c.getInterfaces()`: the interfaces that `c` declares
   *    directly, in declaration order (not those of its superclasses, nor the
   *    super-interfaces of those interfaces);
   *  - `packageOf(c)` is `c.getPackage().getName()`.
   */
  datatype Reflection = Reflection(
    classOf: Ref -> TypeKey,
    interfacesOf: TypeKey -> seq<TypeKey>,
    packageOf: TypeKey -> string)
}
