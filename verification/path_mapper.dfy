/** Where each walked template entry goes (the path logic of the `fs.WalkDir`
    callback, main.go:177-214): nowhere (`Skip`), or a destination path
    relative to the output directory. */
module PathMapper {
  import opened Wrappers
  import opened Text
  import opened PackageName

  /** The walk root inside the embedded template store. */
  const TemplateRoot := "templates"
  const TemplatePrefix := "templates/"

  /** The package directory baked into the templates. */
  const SourcePackagePath := "com/example/rockstarcompose"
  /** Only paths below this base are candidates for renaming. */
  const JavaSourceBase := "app/src/main/java/"
  /** The package the source treats as "the same as the template". */
  const TemplatePackageName := "com.example.app"
  /** The package whose path is the anchor itself. */
  const AnchorPackageName := "com.example.rockstarcompose"
  /** The two parent directories of the anchor that are suppressed. */
  const ComDir := "app/src/main/java/com"
  const ComExampleDir := "app/src/main/java/com/example"

  datatype Mapping = Skip | Dest(rel: string)

  /** The walk path with the `templates/` prefix removed (main.go:182). */
  function RelPath(path: string): string {
    TrimPrefix(path, TemplatePrefix)
  }

  /** The destination of a walked path, relative to the output directory.
      Only the walk root and, unless the package is `com.example.app`, the
      two parents of the anchor are skipped; a path outside the Java base,
      or without the anchor, keeps its relative path. */
  function MapPath(path: string, pkg: string): (m: Mapping)
    ensures m == Skip <==>
              path == TemplateRoot ||
              (pkg != TemplatePackageName && (RelPath(path) == ComDir || RelPath(path) == ComExampleDir))
    ensures m.Dest? && (!HasPrefix(RelPath(path), JavaSourceBase) || !Contains(RelPath(path), SourcePackagePath)) ==>
              m.rel == RelPath(path)
  {
    ParentsHaveNoAnchor();
    assert HasPrefix(ComDir, JavaSourceBase) && HasPrefix(ComExampleDir, JavaSourceBase);
    if path == TemplateRoot then Skip
    else
      var rel := RelPath(path);
      if !HasPrefix(rel, JavaSourceBase) then Dest(rel)
      else
        match Index(rel, SourcePackagePath)
        case Some(idx) =>
          Dest(rel[..idx] + PackagePath(pkg) + rel[idx + |SourcePackagePath|..])
        case None =>
          if pkg != TemplatePackageName && (rel == ComDir || rel == ComExampleDir) then Skip
          else Dest(rel)
  }

  /** A walk path below the root loses exactly the `templates/` prefix. */
  lemma RelPathOfWalkPath(x: string)
    ensures TemplatePrefix + x != TemplateRoot
    ensures RelPath(TemplatePrefix + x) == x
  {
    assert |TemplatePrefix + x| > |TemplateRoot|;
    assert (TemplatePrefix + x)[|TemplatePrefix|..] == x;
  }

  /** The anchor does not start inside the Java source base. */
  lemma NoAnchorInJavaBase(x: string)
    requires HasPrefix(x, JavaSourceBase)
    ensures forall j: nat :: j < |JavaSourceBase| ==> !OccursAt(x, SourcePackagePath, j)
  {
    forall j: nat | j < |JavaSourceBase|
      ensures !OccursAt(x, SourcePackagePath, j)
    {
      if j + |SourcePackagePath| <= |x| {
        var w := x[j..j + |SourcePackagePath|];
        assert w[0] == x[j] && w[1] == x[j + 1];
        assert x[j] == JavaSourceBase[j];
        if j == 6 {
          assert x[7] == '/';
        }
      }
    }
  }

  /** Neither suppressed parent directory contains the anchor. */
  lemma ParentsHaveNoAnchor()
    ensures !Contains(ComDir, SourcePackagePath)
    ensures !Contains(ComExampleDir, SourcePackagePath)
  {
    NoAnchorInJavaBase(ComExampleDir);
    assert forall j: nat :: j >= |JavaSourceBase| ==> !OccursAt(ComExampleDir, SourcePackagePath, j);
  }

  /** Skipping is limited to the walk root and, unless the package is
      `com.example.app`, the two parents `app/src/main/java/com` and
      `app/src/main/java/com/example` of the anchor. */
  lemma SkipsExactly(path: string, pkg: string)
    ensures MapPath(path, pkg) == Skip <==>
              path == TemplateRoot ||
              (pkg != TemplatePackageName && (RelPath(path) == ComDir || RelPath(path) == ComExampleDir))
  {
    ParentsHaveNoAnchor();
    assert HasPrefix(ComDir, JavaSourceBase) && HasPrefix(ComExampleDir, JavaSourceBase);
  }

  /** A path outside `app/src/main/java/` keeps its relative path. */
  lemma OutsideJavaBaseUnchanged(x: string, pkg: string)
    requires !HasPrefix(x, JavaSourceBase)
    ensures MapPath(TemplatePrefix + x, pkg) == Dest(x)
  {
    RelPathOfWalkPath(x);
  }

  /** Below `app/src/main/java/`, the first occurrence of the anchor (found
      by plain substring search) is replaced by the package path. */
  lemma AnchoredRewrite(x: string, pkg: string, i: nat)
    requires HasPrefix(x, JavaSourceBase)
    requires FirstOccurrence(x, SourcePackagePath, i)
    ensures MapPath(TemplatePrefix + x, pkg) ==
              Dest(x[..i] + PackagePath(pkg) + x[i + |SourcePackagePath|..])
  {
    RelPathOfWalkPath(x);
    var idx := Index(x, SourcePackagePath);
    assert idx.Some? by {
      assert OccursAt(x, SourcePackagePath, i);
    }
    FirstOccurrenceUnique(x, SourcePackagePath, i, idx.value);
  }

  /** Below `app/src/main/java/` without the anchor, a path is kept as is
      unless it is one of the two suppressed parents. */
  lemma UnanchoredKept(x: string, pkg: string)
    requires HasPrefix(x, JavaSourceBase) && !Contains(x, SourcePackagePath)
    requires pkg == TemplatePackageName || (x != ComDir && x != ComExampleDir)
    ensures MapPath(TemplatePrefix + x, pkg) == Dest(x)
  {
    RelPathOfWalkPath(x);
  }

  /** A file directly below the anchor directory goes below the package
      path instead: the anchor is never found earlier inside the base. */
  lemma AnchorDirectoryRelocated(suffix: string, pkg: string)
    ensures MapPath(TemplatePrefix + JavaSourceBase + SourcePackagePath + suffix, pkg) ==
              Dest(JavaSourceBase + PackagePath(pkg) + suffix)
  {
    var x := JavaSourceBase + SourcePackagePath + suffix;
    var i := |JavaSourceBase|;
    AppendAssoc(TemplatePrefix, JavaSourceBase, SourcePackagePath);
    AppendAssoc(TemplatePrefix + JavaSourceBase, SourcePackagePath, suffix);
    AppendAssoc(TemplatePrefix, JavaSourceBase + SourcePackagePath, suffix);
    ThreeParts(JavaSourceBase, SourcePackagePath, suffix);
    assert HasPrefix(x, JavaSourceBase);
    NoAnchorInJavaBase(x);
    assert FirstOccurrence(x, SourcePackagePath, i);
    AnchoredRewrite(x, pkg, i);
  }

  /** Two anchored paths with the same text before the anchor map to the
      same destination exactly when the text after the anchor is the same,
      that is, exactly when they are the same path. */
  lemma SamePrefixInjective(x1: string, x2: string, pkg: string, i: nat)
    requires HasPrefix(x1, JavaSourceBase) && HasPrefix(x2, JavaSourceBase)
    requires FirstOccurrence(x1, SourcePackagePath, i) && FirstOccurrence(x2, SourcePackagePath, i)
    requires x1[..i] == x2[..i]
    ensures MapPath(TemplatePrefix + x1, pkg) == MapPath(TemplatePrefix + x2, pkg) <==>
              x1[i + |SourcePackagePath|..] == x2[i + |SourcePackagePath|..]
    ensures MapPath(TemplatePrefix + x1, pkg) == MapPath(TemplatePrefix + x2, pkg) <==> x1 == x2
  {
    AnchoredRewrite(x1, pkg, i);
    AnchoredRewrite(x2, pkg, i);
    var n := i + |SourcePackagePath|;
    SpliceInjective(x1[..i], PackagePath(pkg), x1[n..], x2[n..]);
    SplitAtOccurrence(x1, SourcePackagePath, i);
    SplitAtOccurrence(x2, SourcePackagePath, i);
    SpliceInjective(x1[..i], SourcePackagePath, x1[n..], x2[n..]);
  }

  /** The anchor is the path of `com.example.rockstarcompose`. */
  lemma AnchorPackagePath()
    ensures PackagePath(AnchorPackageName) == SourcePackagePath
  {
    var parts := ["com", "example", "rockstarcompose"];
    AnchorNameSpelled();
    AnchorPathSpelled();
    JoinThree("com", "example", "rockstarcompose", '.');
    JoinThree("com", "example", "rockstarcompose", '/');
    PackagePathOfJoin(parts);
  }

  /** The anchor's spellings, stated apart from any other fact so that the
      solver compares the literals on their own. */
  lemma AnchorNameSpelled()
    ensures AnchorPackageName == "com" + "." + "example" + "." + "rockstarcompose"
  {
  }

  lemma AnchorPathSpelled()
    ensures SourcePackagePath == "com" + "/" + "example" + "/" + "rockstarcompose"
  {
  }

  /** When the package is the one the anchor spells, renaming changes
      nothing. */
  lemma AnchorPackageIsIdentity(x: string)
    requires HasPrefix(x, JavaSourceBase) && Contains(x, SourcePackagePath)
    ensures MapPath(TemplatePrefix + x, AnchorPackageName) == Dest(x)
  {
    var i := Index(x, SourcePackagePath).value;
    AnchoredRewrite(x, AnchorPackageName, i);
    AnchorPackagePath();
    SplitAtOccurrence(x, SourcePackagePath, i);
  }
}
