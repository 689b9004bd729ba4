/**
 * A worked example: objects A (class ClassA, declaring I1), B (ClassB,
 * declaring I1 and I2) and C (ClassC, declaring I2) are decoded, then a `null`
 * record, then D (another ClassA), which is therefore never cataloged.
 */
module Scenario {
  import opened Wrappers
  import opened JavaRuntime
  import opened Catalog
  import opened Decoder
  import opened Container

  const I1 := TypeKey("I1")
  const I2 := TypeKey("I2")
  const Unrelated := TypeKey("Unrelated")
  const ClassA := TypeKey("ClassA")
  const ClassB := TypeKey("ClassB")
  const ClassC := TypeKey("ClassC")

  const A := Ref(0)
  const B := Ref(1)
  const C := Ref(2)
  const D := Ref(3)

  function ClassOf(o: Ref): TypeKey
  {
    if o == A || o == D then ClassA else if o == B then ClassB else ClassC
  }

  function InterfacesOf(c: TypeKey): seq<TypeKey>
  {
    if c == ClassA then [I1] else if c == ClassB then [I1, I2] else if c == ClassC then [I2] else []
  }

  const World := Reflection(ClassOf, InterfacesOf, (c: TypeKey) => "scenario")

  const Records: Records := [Some(A), Some(B), Some(C), None, Some(D)]

  /** Only A, B and C are read: D follows the `null` record. */
  lemma RecordsLoadThree()
    ensures Loaded(Records) == [A, B, C]
  {
    var objs := Loaded(Records);
    assert Records[3] == None && Records[0].Some? && Records[1].Some? && Records[2].Some?;
    assert |objs| <= 3;
    assert |objs| >= 3;
    assert objs[0] == A && objs[1] == B && objs[2] == C;
  }

  /** Who is filed under `t` when A, B and C are cataloged, object by object. */
  lemma ImplementersOfThree(t: TypeKey)
    ensures Implementers(World, [A, B, C], t)
         == (if t in TypesOf(World, A) then {A} else {})
          + (if t in TypesOf(World, B) then {B} else {})
          + (if t in TypesOf(World, C) then {C} else {})
  {
    assert Implementers(World, [], t) == {};
    ImplementersSnoc(World, [], A, t);
    assert [] + [A] == [A];
    ImplementersSnoc(World, [A], B, t);
    assert [A] + [B] == [A, B];
    ImplementersSnoc(World, [A, B], C, t);
    assert [A, B] + [C] == [A, B, C];
  }

  /** The entry for `t` in the example's index: the cataloged objects filed under `t`. */
  lemma ScenarioEntry(t: TypeKey)
    ensures Entry(BuildIndex(World, Loaded(Records)), t) == Implementers(World, [A, B, C], t)
  {
    RecordsLoadThree();
    CatalogAllAt(World, map[], [A, B, C], t);
  }

  /** The keys each example object is filed under. */
  lemma ScenarioTypes()
    ensures TypesOf(World, A) == [I1, ClassA]
    ensures TypesOf(World, B) == [I1, I2, ClassB]
    ensures TypesOf(World, C) == [I2, ClassC]
  {
  }

  /** I1 holds A and B. */
  lemma ScenarioI1()
    ensures Entry(BuildIndex(World, Loaded(Records)), I1) == {A, B}
  {
    ScenarioTypes();
    ScenarioEntry(I1);
    ImplementersOfThree(I1);
  }

  /** I2 holds B and C. */
  lemma ScenarioI2()
    ensures Entry(BuildIndex(World, Loaded(Records)), I2) == {B, C}
  {
    ScenarioTypes();
    ScenarioEntry(I2);
    ImplementersOfThree(I2);
  }

  /** ClassA holds A alone: D, also a ClassA, was never read. */
  lemma ScenarioClassA()
    ensures Entry(BuildIndex(World, Loaded(Records)), ClassA) == {A}
  {
    ScenarioTypes();
    ScenarioEntry(ClassA);
    ImplementersOfThree(ClassA);
  }

  /** ClassC holds C alone. */
  lemma ScenarioClassC()
    ensures Entry(BuildIndex(World, Loaded(Records)), ClassC) == {C}
  {
    ScenarioTypes();
    ScenarioEntry(ClassC);
    ImplementersOfThree(ClassC);
  }

  /** Nothing is filed under an unrelated interface. */
  lemma ScenarioUnrelated()
    ensures Unrelated !in BuildIndex(World, Loaded(Records))
  {
    ScenarioTypes();
    ScenarioEntry(Unrelated);
    ImplementersOfThree(Unrelated);
    BuildIndexExact(World, Loaded(Records));
  }

  /** The example's index, key by key. */
  lemma ScenarioFacts(idx: TypeIndex)
    requires idx == BuildIndex(World, Loaded(Records))
    ensures Entry(idx, I1) == {A, B} && |Entry(idx, I1)| == 2
    ensures Entry(idx, I2) == {B, C} && |Entry(idx, I2)| == 2
    ensures Entry(idx, ClassA) == {A}
    ensures Entry(idx, ClassC) == {C}
    ensures Unrelated !in idx
  {
    ScenarioI1();
    ScenarioI2();
    ScenarioClassA();
    ScenarioClassC();
    ScenarioUnrelated();
  }

  /** The example container, built from the example's records. */
  method BuildScenario(records: Records) returns (container: DefaultContainer)
    requires records == Records
    ensures fresh(container) && container.Valid()
    ensures Entry(container.Index(), I1) == {A, B} && |Entry(container.Index(), I1)| == 2
    ensures Entry(container.Index(), I2) == {B, C} && |Entry(container.Index(), I2)| == 2
    ensures Entry(container.Index(), ClassA) == {A}
    ensures Entry(container.Index(), ClassC) == {C}
    ensures Unrelated !in container.Index()
  {
    var built := DefaultContainer.FromInputStream(Some(records), World);
    container := built.value;
    ScenarioFacts(container.Index());
  }

  /** The queries on the example container, with the answers ContainerTest expects of the analogous context. */
  method RunScenario()
    returns (allI1: Result<seq<Ref>, InterfaceError>, singleI1: Result<Option<Ref>, InterfaceError>,
             singleI2: Result<Option<Ref>, InterfaceError>, singleA: Result<Option<Ref>, InterfaceError>,
             singleC: Result<Option<Ref>, InterfaceError>, containsUnrelated: Result<bool, InterfaceError>,
             allUnrelated: Result<seq<Ref>, InterfaceError>)
    ensures allI1.Success? && |allI1.value| == 2 && A in allI1.value && B in allI1.value
    ensures singleI1 == Failure(AmbiguousInterface(AmbiguityMessage(I1)))
    ensures singleI2 == Failure(AmbiguousInterface(AmbiguityMessage(I2)))
    ensures singleA == Success(Some(A))
    ensures singleC == Success(Some(C))
    ensures containsUnrelated == Success(false)
    ensures allUnrelated == Success([])
  {
    var container := BuildScenario(Records);
    allI1 := container.GetObjectsThatImplement(Some(I1));
    singleI1 := container.GetObjectThatImplementsOrNull(Some(I1));
    singleI2 := container.GetObjectThatImplementsOrNull(Some(I2));
    singleA := container.GetObjectThatImplementsOrNull(Some(ClassA));
    singleC := container.GetObjectThatImplementsOrNull(Some(ClassC));
    containsUnrelated := container.ContainsObjectThatImplements(Some(Unrelated));
    allUnrelated := container.GetObjectsThatImplement(Some(Unrelated));
  }
}
