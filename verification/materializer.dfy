/** The template walk of `main` (main.go:166-254): the output directory is
    created, then every embedded template entry, in walk order, is skipped,
    turned into a directory, or rendered into a file, and the first failure
    ends the walk.

    The embedded store and the operating system are not modelled: the walk
    is a sequence of entries, what the generator asks of the filesystem is a
    sequence of effects, and which calls fail is decided by a `FileSystem`
    oracle. */
module Materializer {
  import opened Wrappers
  import opened Text
  import opened FilePath
  import opened PackageName
  import opened PathMapper
  import opened Renderer
  import opened Permissions

  /** One entry handed to the walk callback: its path inside the store,
      whether it is a directory, a file's bytes (as characters), and the
      error the walk itself reported for it, if any. */
  datatype Entry = Entry(path: string, isDir: bool, content: string, walkError: Option<string>)

  /** A filesystem call that succeeded. */
  datatype Effect =
    | MkdirAll(path: string, perm: Mode)
    | WriteFile(path: string, data: string, perm: Mode)

  datatype Error =
    | WalkFailed(path: string, cause: string)
    | MkdirFailed(path: string)
    | ReadFailed(path: string)
    | WriteFailed(path: string)

  /** Which calls fail: creating a directory at a destination, reading a
      template by its store path, writing a destination. */
  datatype FileSystem = FileSystem(mkdirFails: set<string>, readFails: set<string>, writeFails: set<string>)

  /** A file system on which nothing fails. */
  const Healthy := FileSystem({}, {}, {})

  /** The callback's verdict on one entry: go on (with at most one effect)
      or stop with an error. */
  datatype StepResult = Continue(effect: Option<Effect>) | Abort(error: Error)

  /** What a walk (or the whole generation) leaves behind: the effects, in
      order, and the error that ended it early, if any. */
  datatype Outcome = Outcome(effects: seq<Effect>, error: Option<Error>)

  /** The destination of an entry that is not skipped: it always lies in
      the output directory named after the app. */
  function Destination(e: Entry, cfg: Config): (dest: Option<string>)
    ensures dest.None? <==> MapPath(e.path, cfg.packageName) == Skip
    ensures dest.Some? && |cfg.appName| > 0 ==>
              dest.value == cfg.appName || HasPrefix(dest.value, cfg.appName + "/")
  {
    match MapPath(e.path, cfg.packageName)
    case Skip => None
    case Dest(rel) => Some(Join(cfg.appName, rel))
  }

  /** The walk callback on one entry (main.go:172-249). It aborts exactly
      when the walk reported an error for the entry, or the entry is not
      skipped and one of its filesystem calls fails. */
  function Step(e: Entry, cfg: Config, fs: FileSystem): (r: StepResult)
    ensures r.Abort? <==>
              e.walkError.Some? ||
              (Destination(e, cfg).Some? &&
               if e.isDir then Destination(e, cfg).value in fs.mkdirFails
               else e.path in fs.readFails || Destination(e, cfg).value in fs.writeFails)
    ensures r.Continue? && r.effect.Some? ==> Destination(e, cfg) == Some(r.effect.value.path)
  {
    if e.walkError.Some? then Abort(WalkFailed(e.path, e.walkError.value))
    else
      match Destination(e, cfg)
      case None => Continue(None)
      case Some(dest) =>
        if e.isDir then
          if dest in fs.mkdirFails then Abort(MkdirFailed(dest))
          else Continue(Some(MkdirAll(dest, DirMode)))
        else if e.path in fs.readFails then Abort(ReadFailed(e.path))
        else if dest in fs.writeFails then Abort(WriteFailed(dest))
        else Continue(Some(WriteFile(dest, Render(e.content, cfg), FileMode(dest))))
  }

  /** What the callback does with one entry. */
  lemma StepMeaning(e: Entry, cfg: Config, fs: FileSystem)
    ensures var r := Step(e, cfg, fs);
      // a reported walk error is returned as is
      && (e.walkError.Some? ==> r == Abort(WalkFailed(e.path, e.walkError.value)))
      // an entry is passed over silently exactly when it is skipped
      && (r == Continue(None) <==> e.walkError.None? && Destination(e, cfg).None?)
      // directories are created with 0755 at their destination
      && (r.Continue? && r.effect.Some? && r.effect.value.MkdirAll? ==>
            e.isDir && Some(r.effect.value.path) == Destination(e, cfg) &&
            r.effect.value.perm == DirMode)
      // files are written rendered, readable by all and written by the owner
      // only, executable by all when named gradlew and by nobody otherwise
      && (r.Continue? && r.effect.Some? && r.effect.value.WriteFile? ==>
            !e.isDir && Some(r.effect.value.path) == Destination(e, cfg) &&
            r.effect.value.data == Render(e.content, cfg) &&
            ReadableByAll(r.effect.value.perm) && OwnerOnlyWrites(r.effect.value.perm) &&
            (Base(r.effect.value.path) == LauncherScript ==> ExecutableByAll(r.effect.value.perm)) &&
            (Base(r.effect.value.path) != LauncherScript ==> ExecutableByNone(r.effect.value.perm)))
      // only a failing call, or the walk's own error, stops the walk; a
      // failing call names this entry's destination or template path
      && (r.Abort? ==> match r.error
                       case WalkFailed(_, _) => e.walkError.Some?
                       case MkdirFailed(p) => e.isDir && Destination(e, cfg) == Some(p) && p in fs.mkdirFails
                       case ReadFailed(p) => !e.isDir && p == e.path && p in fs.readFails
                       case WriteFailed(p) => !e.isDir && Destination(e, cfg) == Some(p) && p in fs.writeFails)
      // conversely, every failing call on an entry that is not skipped
      // aborts the walk, naming that call
      && (e.walkError.None? && Destination(e, cfg).Some? ==>
            var d := Destination(e, cfg).value;
            (e.isDir && d in fs.mkdirFails ==> r == Abort(MkdirFailed(d))) &&
            (!e.isDir && e.path in fs.readFails ==> r == Abort(ReadFailed(e.path))) &&
            (!e.isDir && e.path !in fs.readFails && d in fs.writeFails ==> r == Abort(WriteFailed(d))))
      && (fs == Healthy && e.walkError.None? ==> r.Continue?)
  {
    ModeBits();
  }

  function EffectsOf(eff: Option<Effect>): seq<Effect> {
    match eff
    case None => []
    case Some(x) => [x]
  }

  /** The callback's verdict on each entry, in walk order. */
  function Verdicts(es: seq<Entry>, cfg: Config, fs: FileSystem): (rs: seq<StepResult>)
    ensures |rs| == |es|
    ensures forall i :: 0 <= i < |es| ==> rs[i] == Step(es[i], cfg, fs)
  {
    seq(|es|, i requires 0 <= i < |es| => Step(es[i], cfg, fs))
  }

  /** How `fs.WalkDir` combines the verdicts: the effects of the verdicts
      in order, up to the first error, which ends the walk. */
  function Fold(rs: seq<StepResult>): (o: Outcome)
    ensures |o.effects| <= |rs|
    ensures o.error.None? <==> forall i :: 0 <= i < |rs| ==> rs[i].Continue?
    decreases |rs|
  {
    if |rs| == 0 then Outcome([], None)
    else
      match rs[0]
      case Abort(err) => Outcome([], Some(err))
      case Continue(eff) =>
        var rest := Fold(rs[1..]);
        assert forall i :: 1 <= i < |rs| ==> rs[i] == rs[1..][i - 1];
        Outcome(EffectsOf(eff) + rest.effects, rest.error)
  }

  /** `fs.WalkDir` over the templates with the callback (main.go:172-254). */
  function Walk(es: seq<Entry>, cfg: Config, fs: FileSystem): (o: Outcome)
    ensures o.error.None? <==> forall i :: 0 <= i < |es| ==> Step(es[i], cfg, fs).Continue?
    ensures |o.effects| <= |es|
  {
    var rs := Verdicts(es, cfg, fs);
    assert forall i :: 0 <= i < |es| ==> rs[i] == Step(es[i], cfg, fs);
    Fold(rs)
  }

  /** The whole generation: the output directory named after the app is
      created with 0755 (main.go:166-170), then the templates are walked. */
  function Materialize(es: seq<Entry>, cfg: Config, fs: FileSystem): (o: Outcome)
    ensures o.error.None? <==>
              cfg.appName !in fs.mkdirFails && forall i :: 0 <= i < |es| ==> Step(es[i], cfg, fs).Continue?
    ensures o.error.None? ==> |o.effects| >= 1 && o.effects[0] == MkdirAll(cfg.appName, DirMode)
    ensures |o.effects| <= |es| + 1
  {
    if cfg.appName in fs.mkdirFails then Outcome([], Some(MkdirFailed(cfg.appName)))
    else
      var w := Walk(es, cfg, fs);
      Outcome([MkdirAll(cfg.appName, DirMode)] + w.effects, w.error)
  }

  /** Two stretches of verdicts one after the other: once the first has
      failed, the second is never looked at. */
  lemma {:induction false} FoldAppend(a: seq<StepResult>, b: seq<StepResult>)
    ensures Fold(a).error.Some? ==> Fold(a + b) == Fold(a)
    ensures Fold(a).error.None? ==>
              Fold(a + b) == Outcome(Fold(a).effects + Fold(b).effects, Fold(b).error)
    decreases |a|
  {
    if |a| == 0 {
      EmptyAppend(a, b);
    } else {
      AppendTail(a, b);
      FoldAppend(a[1..], b);
      match a[0]
      case Abort(_) =>
      case Continue(eff) =>
        AppendAssoc(EffectsOf(eff), Fold(a[1..]).effects, Fold(b).effects);
    }
  }

  /** One more verdict after a clean prefix: an abort ends the fold with
      its error, a continue adds its effect. */
  lemma FoldExtend(rs: seq<StepResult>, i: nat, effects: seq<Effect>)
    requires i < |rs| && Fold(rs[..i]) == Outcome(effects, None)
    ensures rs[i].Abort? ==> Fold(rs) == Outcome(effects, Some(rs[i].error))
    ensures rs[i].Continue? ==> Fold(rs[..i + 1]) == Outcome(effects + EffectsOf(rs[i].effect), None)
  {
    FoldSingle(rs[i]);
    FoldAppend(rs[..i], [rs[i]]);
    TakeOneMore(rs, i);
    if rs[i].Abort? {
      FoldAppend(rs[..i + 1], rs[i + 1..]);
      TakeDrop(rs, i + 1);
    }
  }

  lemma FoldSingle(r: StepResult)
    ensures r.Abort? ==> Fold([r]) == Outcome([], Some(r.error))
    ensures r.Continue? ==> Fold([r]) == Outcome(EffectsOf(r.effect), None)
  {
    ConsParts(r, []);
  }

  /** The verdict at `i` is the first error. */
  ghost predicate FirstAbort(rs: seq<StepResult>, i: nat) {
    i < |rs| && rs[i].Abort? && forall j :: 0 <= j < i ==> rs[j].Continue?
  }

  /** The walk reports the first error, keeps the effects of the verdicts
      before it, and emits nothing for any later entry. */
  lemma {:induction false} StopsAtFirstError(rs: seq<StepResult>, i: nat)
    requires FirstAbort(rs, i)
    ensures Fold(rs) == Outcome(Fold(rs[..i]).effects, Some(rs[i].error))
  {
    var head := rs[..i];
    assert Fold(head).error.None?;
    FoldSingle(rs[i]);
    FoldAppend(head, [rs[i]]);
    TakeOneMore(rs, i);
    FoldAppend(rs[..i + 1], rs[i + 1..]);
    TakeDrop(rs, i + 1);
  }

  /** A failed walk failed at the first error among the verdicts. */
  lemma {:induction false} ErrorIsFirstAbort(rs: seq<StepResult>)
    requires Fold(rs).error.Some?
    ensures exists i: nat :: FirstAbort(rs, i) && Fold(rs).error.value == rs[i].error
    decreases |rs|
  {
    if rs[0].Abort? {
      assert FirstAbort(rs, 0);
    } else {
      ErrorIsFirstAbort(rs[1..]);
      var i: nat :| FirstAbort(rs[1..], i) && Fold(rs[1..]).error.value == rs[1..][i].error;
      assert forall j :: 1 <= j < |rs| ==> rs[j] == rs[1..][j - 1];
      assert FirstAbort(rs, i + 1);
    }
  }

  /** On a walk that did not fail, an effect is emitted exactly when some
      verdict carries it. */
  lemma {:induction false} EffectsComeFromVerdicts(rs: seq<StepResult>, x: Effect)
    requires Fold(rs).error.None?
    ensures x in Fold(rs).effects <==> exists i :: 0 <= i < |rs| && rs[i] == Continue(Some(x))
    decreases |rs|
  {
    if |rs| > 0 {
      EffectsComeFromVerdicts(rs[1..], x);
      assert forall i :: 1 <= i < |rs| ==> rs[i] == rs[1..][i - 1];
    }
  }

  /** A verdict without effect leaves no trace. */
  lemma FoldSkipTransparent(a: seq<StepResult>, b: seq<StepResult>)
    ensures Fold(a + [Continue(None)] + b) == Fold(a + b)
  {
    var skip: StepResult := Continue(None);
    ConsParts(skip, b);
    assert Fold([skip] + b) == Fold(b);
    FoldAppend(a, [skip] + b);
    FoldAppend(a, b);
    AppendAssoc(a, [skip], b);
  }

  lemma VerdictsAppend(a: seq<Entry>, b: seq<Entry>, cfg: Config, fs: FileSystem)
    ensures Verdicts(a + b, cfg, fs) == Verdicts(a, cfg, fs) + Verdicts(b, cfg, fs)
  {
    var l := Verdicts(a + b, cfg, fs);
    var r := Verdicts(a, cfg, fs) + Verdicts(b, cfg, fs);
    forall i | 0 <= i < |l|
      ensures l[i] == r[i]
    {
      if i < |a| {
        assert (a + b)[i] == a[i];
      } else {
        assert (a + b)[i] == b[i - |a|];
      }
    }
  }

  lemma VerdictsTake(es: seq<Entry>, cfg: Config, fs: FileSystem, i: nat)
    requires i <= |es|
    ensures Verdicts(es[..i], cfg, fs) == Verdicts(es, cfg, fs)[..i]
  {
  }

  /** A skipped entry leaves no trace: the walk with it equals the walk
      without it. The callback returns no error rather than a request to
      skip the directory, so the entries below a skipped directory are
      still visited. */
  lemma SkippedEntryTransparent(a: seq<Entry>, e: Entry, b: seq<Entry>, cfg: Config, fs: FileSystem)
    requires e.walkError.None? && MapPath(e.path, cfg.packageName) == Skip
    ensures Walk(a + [e] + b, cfg, fs) == Walk(a + b, cfg, fs)
  {
    var va := Verdicts(a, cfg, fs);
    var vb := Verdicts(b, cfg, fs);
    assert Verdicts([e], cfg, fs) == [Continue(None)];
    VerdictsAppend(a, [e], cfg, fs);
    VerdictsAppend(a + [e], b, cfg, fs);
    VerdictsAppend(a, b, cfg, fs);
    FoldSkipTransparent(va, vb);
  }

  /** The walk fails on the first entry the callback fails on, with that
      entry's error, keeping only the effects of the entries before it. */
  lemma WalkStopsAtFirstError(es: seq<Entry>, cfg: Config, fs: FileSystem, i: nat)
    requires i < |es| && Step(es[i], cfg, fs).Abort?
    requires forall j :: 0 <= j < i ==> Step(es[j], cfg, fs).Continue?
    ensures Walk(es, cfg, fs) == Outcome(Walk(es[..i], cfg, fs).effects, Some(Step(es[i], cfg, fs).error))
  {
    var rs := Verdicts(es, cfg, fs);
    assert FirstAbort(rs, i);
    StopsAtFirstError(rs, i);
    VerdictsTake(es, cfg, fs, i);
  }

  /** A file that cannot be written ends the walk when every entry before
      it went through: the write error names its destination, and only the
      entries before it have left effects. */
  lemma WalkWriteFailure(es: seq<Entry>, cfg: Config, fs: FileSystem, i: nat)
    requires i < |es| && es[i].walkError.None? && !es[i].isDir && Destination(es[i], cfg).Some?
    requires es[i].path !in fs.readFails && Destination(es[i], cfg).value in fs.writeFails
    requires forall j :: 0 <= j < i ==> Step(es[j], cfg, fs).Continue?
    ensures Walk(es, cfg, fs) ==
              Outcome(Walk(es[..i], cfg, fs).effects, Some(WriteFailed(Destination(es[i], cfg).value)))
  {
    StepMeaning(es[i], cfg, fs);
    WalkStopsAtFirstError(es, cfg, fs, i);
  }

  /** A walk that failed, failed on an entry the callback failed on, and
      every entry before it went through. */
  lemma WalkErrorIsFirstAbort(es: seq<Entry>, cfg: Config, fs: FileSystem)
    requires Walk(es, cfg, fs).error.Some?
    ensures exists i :: 0 <= i < |es| && Step(es[i], cfg, fs) == Abort(Walk(es, cfg, fs).error.value) &&
              forall j :: 0 <= j < i ==> Step(es[j], cfg, fs).Continue?
  {
    var rs := Verdicts(es, cfg, fs);
    ErrorIsFirstAbort(rs);
    var i: nat :| FirstAbort(rs, i) && Fold(rs).error.value == rs[i].error;
    assert Step(es[i], cfg, fs) == Abort(Walk(es, cfg, fs).error.value);
    assert forall j :: 0 <= j < i ==> Step(es[j], cfg, fs).Continue?;
  }

  /** On a walk that did not fail, an effect is emitted exactly when the
      callback produced it for some entry. */
  lemma EffectsComeFromEntries(es: seq<Entry>, cfg: Config, fs: FileSystem, x: Effect)
    requires Walk(es, cfg, fs).error.None?
    ensures x in Walk(es, cfg, fs).effects <==>
              exists i :: 0 <= i < |es| && Step(es[i], cfg, fs) == Continue(Some(x))
  {
    var rs := Verdicts(es, cfg, fs);
    EffectsComeFromVerdicts(rs, x);
  }

  /** On a file system where nothing fails and with no walk errors, the walk
      succeeds, every file that is not skipped is written, rendered, at its
      destination, and every directory that is not skipped is created. */
  lemma HealthyWalkWritesEverything(es: seq<Entry>, cfg: Config, i: nat)
    requires forall j :: 0 <= j < |es| ==> es[j].walkError.None?
    requires i < |es| && Destination(es[i], cfg).Some?
    ensures Walk(es, cfg, Healthy).error.None?
    ensures var dest := Destination(es[i], cfg).value;
            if es[i].isDir then MkdirAll(dest, DirMode) in Walk(es, cfg, Healthy).effects
            else WriteFile(dest, Render(es[i].content, cfg), FileMode(dest)) in Walk(es, cfg, Healthy).effects
  {
    var rs := Verdicts(es, cfg, Healthy);
    forall j | 0 <= j < |rs|
      ensures rs[j].Continue?
    {
      StepMeaning(es[j], cfg, Healthy);
    }
    var dest := Destination(es[i], cfg).value;
    var x := if es[i].isDir then MkdirAll(dest, DirMode)
             else WriteFile(dest, Render(es[i].content, cfg), FileMode(dest));
    assert rs[i] == Continue(Some(x));
    EffectsComeFromVerdicts(rs, x);
  }

  /** The Gradle launcher is made executable wherever it lies in the
      templates, and nothing else is: a written file is executable exactly
      when its path relative to the output directory is `gradlew` or ends
      in `/gradlew`. */
  lemma LauncherExecutable(e: Entry, cfg: Config, fs: FileSystem, rel: string)
    requires |cfg.appName| > 0
    requires |rel| > 0 && rel[|rel| - 1] != '/'
    ensures var r := Step(e, cfg, fs);
            MapPath(e.path, cfg.packageName) == Dest(rel) &&
            r.Continue? && r.effect.Some? && r.effect.value.WriteFile? ==>
              (ExecutableByAll(r.effect.value.perm) <==>
                 rel == LauncherScript || EndsWith(rel, "/" + LauncherScript)) &&
              (ExecutableByNone(r.effect.value.perm) <==>
                 !(rel == LauncherScript || EndsWith(rel, "/" + LauncherScript)))
  {
    var r := Step(e, cfg, fs);
    if MapPath(e.path, cfg.packageName) == Dest(rel) &&
       r.Continue? && r.effect.Some? && r.effect.value.WriteFile? {
      var dest := Join(cfg.appName, rel);
      assert e.walkError.None? && !e.isDir;
      assert Destination(e, cfg) == Some(dest);
      assert r.effect.value.perm == FileMode(dest);
      LauncherByRelPath(cfg.appName, rel);
    }
  }

  /** A template below the anchor directory is written, rendered, below
      the package's own directory in the output. */
  lemma AnchoredFileWritten(suffix: string, content: string, cfg: Config)
    ensures var e := Entry(TemplatePrefix + JavaSourceBase + SourcePackagePath + suffix, false, content, None);
            var dest := Join(cfg.appName, JavaSourceBase + PackagePath(cfg.packageName) + suffix);
            Step(e, cfg, Healthy) == Continue(Some(WriteFile(dest, Render(content, cfg), FileMode(dest))))
  {
    AnchorDirectoryRelocated(suffix, cfg.packageName);
  }

  /** The default answers applied to the template `MainActivity.kt` in the
      anchor directory, whose text is `package {{PACKAGE_NAME}}`: it is
      written below `com/example/myapp` in the output, as
      `package com.example.myapp`. */
  lemma DefaultMainActivity()
    ensures var e := Entry(TemplatePrefix + JavaSourceBase + SourcePackagePath + "/MainActivity.kt", false,
                           "package " + PackageNameToken, None);
            var dest := Join(DefaultAnswers.appName, JavaSourceBase + "com/example/myapp" + "/MainActivity.kt");
            Step(e, DefaultAnswers, Healthy) ==
              Continue(Some(WriteFile(dest, "package com.example.myapp", FileMode(dest))))
  {
    var cfg := DefaultAnswers;
    var content := "package " + PackageNameToken;
    AnchoredFileWritten("/MainActivity.kt", content, cfg);
    DefaultPackagePath();
    DefaultPackageIsValid();
    RenderPackageLine(cfg);
    PackageLineSpelled();
  }

  /** The literal spelling, stated apart so the solver compares it alone. */
  lemma PackageLineSpelled()
    ensures "package " + DefaultAnswers.packageName == "package com.example.myapp"
  {
  }

  /** A whole generation on a file system where nothing fails, with no walk
      errors, succeeds: the output directory is created first with 0755,
      every entry that is not skipped gets its directory or its rendered
      file, and nothing else is done. */
  lemma MaterializeHealthy(es: seq<Entry>, cfg: Config)
    requires forall j :: 0 <= j < |es| ==> es[j].walkError.None?
    ensures var o := Materialize(es, cfg, Healthy);
            o.error.None? && |o.effects| >= 1 && o.effects[0] == MkdirAll(cfg.appName, DirMode)
    ensures var o := Materialize(es, cfg, Healthy);
            forall i :: 0 <= i < |es| && Destination(es[i], cfg).Some? ==>
              var dest := Destination(es[i], cfg).value;
              if es[i].isDir then MkdirAll(dest, DirMode) in o.effects
              else WriteFile(dest, Render(es[i].content, cfg), FileMode(dest)) in o.effects
    ensures var o := Materialize(es, cfg, Healthy);
            forall x :: x in o.effects ==>
              x == MkdirAll(cfg.appName, DirMode) ||
              exists i :: 0 <= i < |es| && Step(es[i], cfg, Healthy) == Continue(Some(x))
  {
    var w := Walk(es, cfg, Healthy);
    var rs := Verdicts(es, cfg, Healthy);
    forall j | 0 <= j < |rs|
      ensures rs[j].Continue?
    {
      StepMeaning(es[j], cfg, Healthy);
    }
    assert w.error.None?;
    var o := Materialize(es, cfg, Healthy);
    assert o.effects == [MkdirAll(cfg.appName, DirMode)] + w.effects;
    forall i | 0 <= i < |es| && Destination(es[i], cfg).Some?
      ensures var dest := Destination(es[i], cfg).value;
              if es[i].isDir then MkdirAll(dest, DirMode) in o.effects
              else WriteFile(dest, Render(es[i].content, cfg), FileMode(dest)) in o.effects
    {
      HealthyWalkWritesEverything(es, cfg, i);
    }
    forall x | x in o.effects
      ensures x == MkdirAll(cfg.appName, DirMode) ||
              exists i :: 0 <= i < |es| && Step(es[i], cfg, Healthy) == Continue(Some(x))
    {
      if x != MkdirAll(cfg.appName, DirMode) {
        assert x in w.effects;
        EffectsComeFromEntries(es, cfg, Healthy, x);
      }
    }
  }

  /** A failed generation failed either creating the output directory, with
      nothing done, or on the first entry the callback failed on: the
      effects are the output directory and those of the entries before
      that one, and no later entry is looked at. */
  lemma MaterializeStopsAtFirstFailure(es: seq<Entry>, cfg: Config, fs: FileSystem)
    requires Materialize(es, cfg, fs).error.Some?
    ensures var o := Materialize(es, cfg, fs);
            (cfg.appName in fs.mkdirFails && o == Outcome([], Some(MkdirFailed(cfg.appName)))) ||
            (cfg.appName !in fs.mkdirFails &&
             exists i :: 0 <= i < |es| && Step(es[i], cfg, fs) == Abort(o.error.value) &&
               (forall j :: 0 <= j < i ==> Step(es[j], cfg, fs).Continue?) &&
               o.effects == [MkdirAll(cfg.appName, DirMode)] + Walk(es[..i], cfg, fs).effects)
  {
    var o := Materialize(es, cfg, fs);
    if cfg.appName !in fs.mkdirFails {
      WalkErrorIsFirstAbort(es, cfg, fs);
      var i :| 0 <= i < |es| && Step(es[i], cfg, fs) == Abort(Walk(es, cfg, fs).error.value) &&
               forall j :: 0 <= j < i ==> Step(es[j], cfg, fs).Continue?;
      WalkStopsAtFirstError(es, cfg, fs, i);
    }
  }

  /** The imperative walk: the callback applied to each entry in turn,
      returning at the first error; it computes the fold. */
  method RunWalk(es: seq<Entry>, cfg: Config, fs: FileSystem) returns (effects: seq<Effect>, err: Option<Error>)
    ensures Outcome(effects, err) == Walk(es, cfg, fs)
    ensures |effects| <= |es|
  {
    ghost var rs := Verdicts(es, cfg, fs);
    effects := [];
    var i := 0;
    while i < |es|
      invariant 0 <= i <= |es|
      invariant Fold(rs[..i]) == Outcome(effects, None)
    {
      var r := Step(es[i], cfg, fs);
      assert rs[i] == r;
      FoldExtend(rs, i, effects);
      if r.Abort? {
        return effects, Some(r.error);
      }
      effects := effects + EffectsOf(r.effect);
      i := i + 1;
    }
    assert rs[..i] == rs;
    err := None;
  }
}
