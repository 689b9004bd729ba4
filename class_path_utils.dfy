/**
 * Class-path helpers: turning the package of a class into a `/`-delimited
 * class-path prefix, and locating a file in the same package as an object.
 */
module ClassPathUtils {
  import opened Wrappers
  import opened JavaRuntime

  /** Separates package name segments in Java source. */
  const JavaPackageSeparatorChar: char := '.'

  /** Separates package name segments on the class path. */
  const ClassPathPackageSeparatorChar: char := '/'

  /** The `IllegalArgumentException` these helpers throw. */
  datatype IllegalArgument = IllegalArgument(message: string)

  const NullClassMessage := "Class from which to extract classpath from may not be null."
  const NullObjectMessage := "Object from which to get class and extract classpath from may not be null."
  const NullFileNameMessage := "Filename may not be null."

  /**
   * `String.replace` with one-character target and replacement: every
   * occurrence of `target` becomes `replacement`, every other character stays.
   */
  function Replace(s: string, target: char, replacement: char): (r: string)
    ensures |r| == |s|
    ensures forall i :: 0 <= i < |s| ==> r[i] == (if s[i] == target then replacement else s[i])
  {
    if s == [] then []
    else [if s[0] == target then replacement else s[0]] + Replace(s[1..], target, replacement)
  }

  /** After replacing, the target character no longer occurs. */
  lemma ReplaceRemovesTarget(s: string, target: char, replacement: char)
    requires target != replacement
    ensures target !in Replace(s, target, replacement)
  {
  }

  /** Replacing a character that does not occur changes nothing. */
  lemma ReplaceAbsentIsIdentity(s: string, target: char, replacement: char)
    requires target !in s
    ensures Replace(s, target, replacement) == s
  {
  }

  /** Replacing back undoes a replacement, provided the replacement character did not occur to begin with. */
  lemma ReplaceRoundTrip(s: string, target: char, replacement: char)
    requires replacement !in s
    ensures Replace(Replace(s, target, replacement), replacement, target) == s
  {
  }

  /**
   * `p` is the class-path prefix of package `pkg`: a `/`, then `pkg` with
   * each `.` turned into `/`, then a closing `/`.
   */
  predicate IsPackagePath(p: string, pkg: string)
  {
    && |p| == |pkg| + 2
    && p[0] == ClassPathPackageSeparatorChar
    && p[|p| - 1] == ClassPathPackageSeparatorChar
    && forall i :: 0 <= i < |pkg| ==>
         p[i + 1] == (if pkg[i] == JavaPackageSeparatorChar then ClassPathPackageSeparatorChar else pkg[i])
  }

  /** A package has only one class-path prefix. */
  lemma {:induction false} PackagePathUnique(p: string, q: string, pkg: string)
    requires IsPackagePath(p, pkg) && IsPackagePath(q, pkg)
    ensures p == q
  {
    forall i | 0 <= i < |p| ensures p[i] == q[i] {
      if 0 < i < |p| - 1 {
        var j := i - 1;
        var expected := if pkg[j] == JavaPackageSeparatorChar then ClassPathPackageSeparatorChar else pkg[j];
        assert p[j + 1] == expected && q[j + 1] == expected;
      }
    }
  }

  /**
   * A class-path prefix gives back its package when its slashes are turned
   * back into dots, provided the package name held no `/` of its own.
   */
  lemma PackagePathRecoversPackage(p: string, pkg: string)
    requires IsPackagePath(p, pkg)
    requires ClassPathPackageSeparatorChar !in pkg
    ensures Replace(p[1..|p| - 1], ClassPathPackageSeparatorChar, JavaPackageSeparatorChar) == pkg
  {
    var inner := p[1..|p| - 1];
    var back := Replace(inner, ClassPathPackageSeparatorChar, JavaPackageSeparatorChar);
    forall i | 0 <= i < |pkg| ensures back[i] == pkg[i] {
      assert inner[i] == p[i + 1];
    }
  }

  /**
   * The class-path prefix of the package of `classToInspect`; a `null` class
   * is an illegal argument.
   */
  function GenerateClassPathPrefixForClass(classToInspect: Option<TypeKey>, reflection: Reflection)
    : (r: Result<string, IllegalArgument>)
    ensures classToInspect.None? ==> r == Failure(IllegalArgument(NullClassMessage))
    ensures classToInspect.Some? ==>
      && r.Success?
      && IsPackagePath(r.value, reflection.packageOf(classToInspect.value))
      && JavaPackageSeparatorChar !in r.value
  {
    if classToInspect.None? then Failure(IllegalArgument(NullClassMessage))
    else
      var packageName := reflection.packageOf(classToInspect.value);
      var pathSegment := Replace(packageName, JavaPackageSeparatorChar, ClassPathPackageSeparatorChar);
      Success([ClassPathPackageSeparatorChar] + pathSegment + [ClassPathPackageSeparatorChar])
  }

  /**
   * The class-path location of `fileName` in the package of `obj`'s class:
   * that package's prefix followed by the file name. A `null` object is
   * refused first, then a `null` file name.
   */
  function GenerateClassPathPrefixForFileInSamePackageAs(obj: Option<Ref>, fileName: Option<string>,
                                                        reflection: Reflection)
    : (r: Result<string, IllegalArgument>)
    ensures obj.None? ==> r == Failure(IllegalArgument(NullObjectMessage))
    ensures obj.Some? && fileName.None? ==> r == Failure(IllegalArgument(NullFileNameMessage))
    ensures obj.Some? && fileName.Some? ==>
      var pkg := reflection.packageOf(reflection.classOf(obj.value));
      && r.Success?
      && |r.value| == |pkg| + 2 + |fileName.value|
      && IsPackagePath(r.value[..|pkg| + 2], pkg)
      && r.value[|pkg| + 2..] == fileName.value
  {
    if obj.None? then Failure(IllegalArgument(NullObjectMessage))
    else if fileName.None? then Failure(IllegalArgument(NullFileNameMessage))
    else
      var prefix := GenerateClassPathPrefixForClass(Some(reflection.classOf(obj.value)), reflection).value;
      var resultingPath := prefix + fileName.value;
      assert resultingPath[..|prefix|] == prefix;
      Success(resultingPath)
  }
}
