# droid-cli template materialiser, modelled in Dafny

droid-cli (`main.go`) asks for an app name, a package name and a minimum
SDK, then copies an embedded Android project template into a directory named
after the app. While copying it:

- moves the sample package directory `com/example/rockstarcompose` to the
  user's package path;
- replaces seven `{{…}}` placeholders in every file;
- makes the Gradle launcher `gradlew` executable;
- stops at the first failing filesystem call.

This project models that core as pure functions over `seq<char>` and proves
what it promises.

| file | module | what it models |
|---|---|---|
| `wrappers.dfy` | `Wrappers` | `Option`: an absent result, such as `-1` from `strings.Index`, a nil error, no effect or no destination |
| `text.dfy` | `Text` | the Go `strings` calls the core makes: `Contains`, `HasPrefix`, `TrimPrefix`, `Index`, `ReplaceAll`. Also `Split` and `JoinWith`: the core never calls them, but the package-path property is stated with them |
| `package_name.dfy` | `PackageName` | `validatePackageName` as a three-state recogniser for `^[a-z][a-z0-9_]*(\.[a-z][a-z0-9_]*)*$`, and the package path `strings.ReplaceAll(pkg, ".", "/")` |
| `path_mapper.dfy` | `PathMapper` | where a walked template path goes: skipped, kept, or re-anchored under the package path |
| `filepath.dfy` | `FilePath` | `filepath.Join` and `filepath.Base` on slash-separated paths |
| `permissions.dfy` | `Permissions` | the 0755 / 0644 mode choice |
| `renderer.dfy` | `Renderer` | the seven sequential placeholder substitutions and the version constants |
| `materializer.dfy` | `Materializer` | the `fs.WalkDir` callback as a step function, and the walk as a fold that stops at the first error |

The filesystem is an oracle. A `FileSystem` value names the paths on which
`MkdirAll`, `ReadFile` or `WriteFile` fail. The walk itself is a sequence of
`Entry` values in walk order, each carrying:

- its path;
- whether it is a directory;
- its content;
- the error `WalkDir` reports for it, if any.

Each entry yields at most one `Effect` (`MkdirAll` or `WriteFile`, with its
permission bits). The walk's `Outcome` is the list of successful effects
plus the first error.

Some of the program's behaviour is easy to misread. In each case below, the model follows what the code does.

- **Substitution order matters.** The placeholders are replaced one after
  another, so a value that itself holds a later placeholder is rewritten
  again (`Renderer.RenderChainsThroughAppName`).
- **Two different sample packages.** The "same package as the template"
  test compares against `com.example.app` (main.go:206), but the directory
  that is moved is `com/example/rockstarcompose` (main.go:185). Both are
  modelled literally. As a result, the parents `app/src/main/java/com` and
  `app/src/main/java/com/example` are skipped for every package other than
  `com.example.app`, including `com.example.rockstarcompose` itself.
- **Group write bit.** The comment at main.go:229 says 0644 is read/write
  for owner and group. 0644 gives the group read only. `Permissions.FileMode`
  states the bits that are actually set: read for all, write for the owner
  only, and execute for all (`gradlew`) or for nobody (every other file).
  `Permissions.ModeDeterminedByBits` shows that these bits pin the mode to
  0755 or 0644.
- **Anchor match.** The anchor is found by plain substring search
  (main.go:194-196), not by whole path segments.

## Model

| member | source | states |
|---|---|---|
| PackageName.ValidatePackageName | main.go:26-38 | no error exactly for a package name: one or more dot-separated tokens, each a lower-case letter followed by lower-case letters, digits or `_`; every rejection carries the format message |
| PackageName.MatchesIsPackageName | main.go:33 | the recogniser accepts exactly the language of the regular expression |
| PackageName.RunMeaning | main.go:33 | from the start of a token the recogniser accepts whole tokens only; from inside a token, the rest of that token followed by whole tokens |
| PackageName.PackageNameBySplit | main.go:33 | a text is a package name exactly when every part of splitting it at `.` is a valid token |
| PackageName.PackageNameAlphabet | main.go:33 | an accepted name holds only `.`, lower-case letters, digits and `_` |
| PackageName.RejectsEmptyOrLeadingDot | main.go:33-36 | the empty text and a text starting with `.` are rejected |
| PackageName.RejectsTrailingDot | main.go:33-36 | a text ending in `.` is rejected |
| PackageName.RejectsDoubleDot | main.go:33-36 | a text with two adjacent dots is rejected |
| PackageName.RejectsUpperCase | main.go:33-36 | a text with an upper-case letter anywhere is rejected |
| PackageName.PackagePath | main.go:162 | the package path has the package name's length and holds no `.` |
| PackageName.PackagePathOfJoin | main.go:162 | dot-joined parts become the same parts joined with `/` |
| PackageName.PackagePathSegments | main.go:162 | for a valid package, splitting its path at `/` gives exactly its dot-separated tokens, in order |
| PackageName.PackagePathOfTokens | main.go:162 | valid tokens joined with `.` come back out of the package path when it is split at `/` |
| Text.TrimPrefix | main.go:182 | the prefix, when present, is removed and nothing else; otherwise the text is unchanged |
| Text.Index | main.go:194-196 | `Some(i)` exactly when the pattern occurs, and `i` is its leftmost occurrence |
| Text.ReplaceAll | main.go:238-245 | Go's `strings.ReplaceAll` for a non-empty pattern: text without the pattern comes back unchanged. `Text.ReplaceAllAfterPlain`, `Text.ReplaceAllSplice` and `Text.ReplaceAllNoResidual` pin down the rest |
| Text.ReplaceAllAfterPlain | main.go:238 | text in front in which no match starts is copied, and only the rest is replaced |
| Text.ReplaceAllSplice | main.go:238 | a match in the middle of a text is replaced and the text around it is kept, when no match starts before it |
| Text.ReplaceAllNoResidual | main.go:238-245 | after replacing a pattern with a value that cannot take part in an occurrence of `t`, the result holds no `t`, provided `t` is the pattern or was absent |
| Text.SplitThenJoin | main.go:162 | joining the parts of a split gives back the text |
| Text.JoinThenSplit | main.go:162 | splitting parts joined by a separator they do not hold gives back the parts |
| Text.SplitAfterReplaceChar | main.go:162 | replacing `a` by a character `b` absent from the text, then splitting at `b`, is splitting at `a` |
| PathMapper.MapPath | main.go:177-214 | the path mapper. An entry is skipped exactly when it is the walk root, or the package is not `com.example.app` and the entry is one of the anchor's two parents. A path outside `app/src/main/java/`, or without the anchor, keeps its relative path. `PathMapper.AnchoredRewrite` states the re-anchoring case |
| PathMapper.SkipsExactly | main.go:177-212 | an entry is skipped exactly when it is the walk root, or the package is not `com.example.app` and the entry is `app/src/main/java/com` or `app/src/main/java/com/example` |
| PathMapper.OutsideJavaBaseUnchanged | main.go:182-191 | `templates/X` with `X` outside `app/src/main/java/` goes to `X` unchanged |
| PathMapper.AnchoredRewrite | main.go:191-203 | below `app/src/main/java/`, the first occurrence of `com/example/rockstarcompose` is replaced by the package path; the text before and after it is kept |
| PathMapper.UnanchoredKept | main.go:191-214 | below the Java base without the anchor, a path that is not a suppressed parent is kept |
| PathMapper.AnchorDirectoryRelocated | main.go:185-203 | a file directly below the anchor directory is placed below the package path |
| PathMapper.SamePrefixInjective | main.go:194-203 | two anchored paths with the same text before the anchor get the same destination exactly when their text after it is the same, so exactly when they are the same path |
| PathMapper.AnchorPackagePath | main.go:162-185 | the package path of `com.example.rockstarcompose` is the anchor |
| PathMapper.AnchorPackageIsIdentity | main.go:162-203 | for the package `com.example.rockstarcompose`, re-anchoring leaves every anchored path unchanged |
| FilePath.BaseIsName | main.go:232 | for a path not ending in `/`, the base is `name` exactly when the path is `name` or ends in `/name` |
| FilePath.BaseOfJoin | main.go:189-232 | below the output directory, the base of a destination is decided by the relative path alone |
| Permissions.FileMode | main.go:228-234 | a file's mode is executable by all when its destination's base is `gradlew` and by nobody otherwise; it is always readable by all and writable by the owner only |
| Permissions.ModeDeterminedByBits | main.go:230-233 | a mode readable by all and writable by the owner only is 0755 when everyone may execute it, and 0644 when nobody may |
| Permissions.LauncherByPath | main.go:230-234 | a file is executable by all exactly when its destination is `gradlew` or ends in `/gradlew`, and by nobody exactly when it is neither |
| Renderer.Render | main.go:236-245 | content holding none of the seven placeholders is returned unchanged |
| Renderer.TokensDistinct | main.go:238-245 | no placeholder occurs inside a different one |
| Renderer.ApplyAllOfToken | main.go:238-245 | the `k`-th placeholder on its own renders to its value, put through the steps after `k` only |
| Renderer.RenderAppNameToken | main.go:238 | `{{APP_NAME}}` renders to the app name put through the six later steps |
| Renderer.RenderChainsThroughAppName | main.go:238-240 | an app name that is `{{MIN_SDK}}` renders to the minimum SDK: the steps chain |
| Renderer.RenderPackageNameToken | main.go:239 | for a valid package name, `{{PACKAGE_NAME}}` renders to exactly that name |
| Renderer.RenderTokenToValue | main.go:238-245 | a placeholder on its own renders to exactly its value when the value holds none of the later placeholders |
| Renderer.RenderMinSdkToken | main.go:240-245 | `{{MIN_SDK}}` renders to the minimum SDK answer when the answer holds no version placeholder |
| Renderer.RenderVersionTokens | main.go:242-245 | `{{GRADLE_VERSION}}`, `{{AGP_VERSION}}`, `{{KOTLIN_VERSION}}` and `{{CBOM_VERSION}}` render to `9.2.1`, `8.13.2`, `2.3.0` and `2025.12.01` |
| Renderer.ApplyAllAfterPlain | main.go:237-245 | text in front that holds no `{` passes through every step unchanged, and only the rest is rendered |
| Renderer.RenderPackageLine | main.go:239 | `package {{PACKAGE_NAME}}` renders to `package ` followed by the valid package name |
| Renderer.VersionsAreSafe | main.go:71-75 | no version constant can form part of a placeholder |
| Renderer.RenderLeavesNoPlaceholder | main.go:237-245 | when the values cannot form placeholders, no placeholder is left in the rendered content |
| Renderer.DefaultPackageIsValid | main.go:125-126 | the default answer `com.example.myapp` passes validation |
| Renderer.RenderDefaultAnswers | main.go:120-135 | with the default answers, no placeholder is left, and `{{PACKAGE_NAME}}` becomes `com.example.myapp` |
| Materializer.Destination | main.go:177-214 | there is no destination exactly when the entry is skipped; for a non-empty app name, every destination is the app directory or lies below it |
| Materializer.Step | main.go:172-249 | the walk callback. It aborts exactly when the walk reported an error for the entry, or the entry is not skipped and its `MkdirAll`, `ReadFile` or `WriteFile` fails. Any effect is at the entry's destination. `Materializer.StepMeaning` states the rest |
| Materializer.StepMeaning | main.go:172-248 | for one entry: a walk error is returned as is; a skip is silent; a directory is created at its destination with 0755; a file is written rendered, readable by all and writable by the owner only, executable by all when its base is `gradlew` and by nobody otherwise; a failing create or write names this entry's destination, a failing read its template path; conversely, a failing `MkdirAll`, `ReadFile` or `WriteFile` on a non-skipped entry aborts with that error; a healthy filesystem never aborts |
| Materializer.Fold | main.go:172-254 | the fold has no error exactly when every verdict continues, and emits at most one effect per entry |
| Materializer.Walk | main.go:172-254 | `fs.WalkDir` with the callback: no error exactly when the callback continues on every entry, and at most one effect per entry. The `Walk…` lemma rows below state the rest |
| Materializer.FoldAppend | main.go:172-254 | folding two runs in sequence is the first fold when it failed, and otherwise its effects followed by the second fold |
| Materializer.StopsAtFirstError | main.go:172-254 | the first aborting verdict decides the error, and only the verdicts before it contribute effects |
| Materializer.ErrorIsFirstAbort | main.go:251-254 | a reported error is the error of the first aborting verdict |
| Materializer.WalkStopsAtFirstError | main.go:172-254 | the first failing entry's error ends the walk, and no entry after it adds an effect |
| Materializer.WalkWriteFailure | main.go:248-254 | a file whose write fails, after every earlier entry went through, ends the walk with the write error for its destination, keeping only the earlier entries' effects |
| Materializer.WalkErrorIsFirstAbort | main.go:172-254 | every reported error comes from an entry all of whose predecessors succeeded |
| Materializer.EffectsComeFromEntries | main.go:216-248 | in a walk without error, an effect is emitted exactly when some entry's step produces it |
| Materializer.SkippedEntryTransparent | main.go:177-212 | a skipped entry leaves the walk unchanged, so the entries below it are still visited |
| Materializer.HealthyWalkWritesEverything | main.go:216-248 | on a filesystem that never fails, the walk succeeds and creates every non-skipped directory and writes every non-skipped file, rendered and with its mode |
| Materializer.LauncherExecutable | main.go:189-234 | a written file is executable by all exactly when its relative destination is `gradlew` or ends in `/gradlew`, and by nobody otherwise |
| Materializer.AnchoredFileWritten | main.go:185-248 | a template file below the anchor directory is written below the package path, rendered, with the mode its name calls for |
| Materializer.Materialize | main.go:166-254 | the whole generation. It succeeds exactly when the app directory can be created and the callback continues on every entry. On success, the app directory was created first with 0755. There is at most one effect per entry plus the root. `Materializer.MaterializeHealthy` and `Materializer.MaterializeStopsAtFirstFailure` state the rest |
| Materializer.MaterializeHealthy | main.go:166-254 | on a filesystem that never fails, generation succeeds: the app directory is created first with 0755, every non-skipped entry gets its directory or rendered file, and every other effect comes from some entry |
| Materializer.MaterializeStopsAtFirstFailure | main.go:166-254 | a failed generation failed either creating the app directory, with nothing done, or at the first entry that failed; then the effects are the app directory plus those of the entries before it |
| Materializer.DefaultMainActivity | main.go:185-248 | with the default answers, `MainActivity.kt` below the anchor, holding `package {{PACKAGE_NAME}}`, is written below `com/example/myapp` as `package com.example.myapp` |
| Materializer.RunWalk | main.go:172-254 | the loop computes exactly the fold's effects and error, emitting at most one effect per entry |

## Left out

- The toolchain probes `FindJava`, `FindSDK` and `FindGradle` (main.go:40-69): they read the environment and `PATH`.
- Status printing and the interactive `survey` prompts (main.go:80-144): user interface and a third-party library. The prompt defaults appear only as `Renderer.DefaultAnswers`. Neither the `survey.Required` check nor the `MinSdk` options list is modelled.
- The overwrite confirmation and `os.RemoveAll` (main.go:148-160): interactive filesystem I/O.
- The generated README and the OS-specific "next steps" output (main.go:256-288): presentation, and the README write's error is ignored.
- The real `embed.FS`, `os.MkdirAll`, `os.ReadFile` and `os.WriteFile`: replaced by the entry sequence and the `FileSystem` failure oracle. A failing call is assumed to leave no partial effect.
- `fs.WalkDir`'s traversal: the entry order is given, not computed, and the error `WalkDir` passes to the callback is a field of the entry.
- The `regexp` engine: replaced by the hand-written recogniser `PackageName.Run`, which `PackageName.MatchesIsPackageName` ties to the language of the expression.
- The non-string argument branch of `validatePackageName` (main.go:27-30): Dafny's types rule it out.
- `filepath.Join`'s path cleaning and the OS separator: `FilePath.Join` joins already-clean relative paths with `/`.
- `Text.ReplaceAll`: requires a non-empty pattern. Go's behaviour for an empty pattern is not modelled because the core never uses one.
- The process umask: the model gives the permission bits requested, not the ones a file finally gets.
- File contents are modelled as characters, not bytes: the `string(content)` and `[]byte(fileStr)` conversions are taken as lossless.
