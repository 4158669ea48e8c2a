/** Placeholder substitution in template file contents (main.go:237-245):
    seven literal `ReplaceAll` steps in a fixed order, three of them with
    values from the user's answers and four with the build-tool version
    constants (main.go:71-77). */
module Renderer {
  import opened Text
  import opened PackageName

  /** The user's answers (main.go:20-24). */
  datatype Config = Config(appName: string, packageName: string, minSdk: string)

  const AGPVersion := "8.13.2"
  const KotlinVersion := "2.3.0"
  const GradleVersion := "9.2.1"
  const ComposeBomVersion := "2025.12.01"
  /** The default minimum SDK offered by the prompt. */
  const MinSdk := "24"

  /** The placeholder `{{NAME}}` for a name. */
  function Placeholder(name: string): string {
    "{{" + name + "}}"
  }

  const AppNameToken := Placeholder("APP_NAME")
  const PackageNameToken := Placeholder("PACKAGE_NAME")
  const MinSdkToken := Placeholder("MIN_SDK")
  const GradleVersionToken := Placeholder("GRADLE_VERSION")
  const AgpVersionToken := Placeholder("AGP_VERSION")
  const KotlinVersionToken := Placeholder("KOTLIN_VERSION")
  const CbomVersionToken := Placeholder("CBOM_VERSION")

  /** The placeholders in the order they are substituted. */
  const Tokens: seq<string> := [AppNameToken, PackageNameToken, MinSdkToken, GradleVersionToken,
                                AgpVersionToken, KotlinVersionToken, CbomVersionToken]

  datatype Substitution = Substitution(token: string, value: string)

  /** The substitution table of one run: each placeholder with its value,
      in application order. */
  function Substitutions(cfg: Config): (table: seq<Substitution>)
    ensures |table| == |Tokens|
    ensures forall k :: 0 <= k < |table| ==> table[k].token == Tokens[k]
  {
    [ Substitution(AppNameToken, cfg.appName),
      Substitution(PackageNameToken, cfg.packageName),
      Substitution(MinSdkToken, cfg.minSdk),
      Substitution(GradleVersionToken, GradleVersion),
      Substitution(AgpVersionToken, AGPVersion),
      Substitution(KotlinVersionToken, KotlinVersion),
      Substitution(CbomVersionToken, ComposeBomVersion) ]
  }

  ghost predicate NonEmptyTokens(table: seq<Substitution>) {
    forall k :: 0 <= k < |table| ==> |table[k].token| > 0
  }

  /** Applies the substitutions one after the other; text holding none of
      the placeholders passes through unchanged. */
  function ApplyAll(s: string, table: seq<Substitution>): (r: string)
    requires NonEmptyTokens(table)
    ensures (forall k :: 0 <= k < |table| ==> !Contains(s, table[k].token)) ==> r == s
    decreases |table|
  {
    if |table| == 0 then s
    else ApplyAll(ReplaceAll(s, table[0].token, table[0].value), table[1..])
  }

  /** The rendered content of a template file. Content holding none of the
      seven placeholders is returned unchanged. */
  function Render(content: string, cfg: Config): (r: string)
    ensures (forall k :: 0 <= k < |Tokens| ==> !Contains(content, Tokens[k])) ==> r == content
  {
    ApplyAll(content, Substitutions(cfg))
  }

  /** A placeholder: `{{`, then text without braces, then `}}`. */
  ghost predicate Braced(t: string) {
    && |t| >= 4
    && t[0] == '{' && t[1] == '{' && t[|t| - 2] == '}' && t[|t| - 1] == '}'
    && forall i :: 2 <= i < |t| - 2 ==> t[i] != '{' && t[i] != '}'
  }

  /** One placeholder occurs inside another exactly when they are the
      same. */
  lemma BracedContainment(k: string, l: string)
    requires Braced(k) && Braced(l)
    ensures Contains(k, l) <==> k == l
  {
    if Contains(k, l) {
      var j: nat :| OccursAt(k, l, j);
      var w := k[j..j + |l|];
      assert w[0] == k[j] && w[1] == k[j + 1];
      assert j == 0;
      assert w[|l| - 2] == k[|l| - 2];
      assert |l| == |k|;
    }
    if k == l {
      assert OccursAt(k, l, 0);
    }
  }

  /** The characters placeholders are spelled with. */
  predicate PlaceholderChar(c: char) {
    c == '{' || c == '}' || c == '_' || ('A' <= c <= 'Z')
  }

  /** A placeholder spelled with upper-case letters and underscores. */
  ghost predicate PlaceholderSpelling(t: string) {
    Braced(t) && forall i :: 0 <= i < |t| ==> PlaceholderChar(t[i])
  }

  /** A name spelled with upper-case letters and underscores. */
  ghost predicate UpperName(name: string) {
    forall i :: 0 <= i < |name| ==> name[i] == '_' || 'A' <= name[i] <= 'Z'
  }

  lemma SpelledName(name: string)
    requires UpperName(name)
    ensures PlaceholderSpelling(Placeholder(name))
  {
    var t := Placeholder(name);
    forall i | 2 <= i < |t| - 2
      ensures t[i] == name[i - 2]
    {
    }
  }

  lemma TokensSpelling()
    ensures forall k :: 0 <= k < |Tokens| ==> PlaceholderSpelling(Tokens[k])
  {
    SpelledName("APP_NAME");
    SpelledName("PACKAGE_NAME");
    SpelledName("MIN_SDK");
    SpelledName("GRADLE_VERSION");
    SpelledName("AGP_VERSION");
    SpelledName("KOTLIN_VERSION");
    SpelledName("CBOM_VERSION");
  }

  /** Different names give different placeholders. */
  lemma PlaceholderInjective(a: string, b: string)
    ensures Placeholder(a) == Placeholder(b) <==> a == b
  {
    if Placeholder(a) == Placeholder(b) {
      assert a == Placeholder(a)[2..|a| + 2];
    }
  }

  /** The names inside the placeholders, in substitution order. */
  const TokenNames := ["APP_NAME", "PACKAGE_NAME", "MIN_SDK", "GRADLE_VERSION",
                       "AGP_VERSION", "KOTLIN_VERSION", "CBOM_VERSION"]

  lemma TokensAreNamed()
    ensures |Tokens| == |TokenNames|
    ensures forall k :: 0 <= k < |Tokens| ==> Tokens[k] == Placeholder(TokenNames[k])
  {
  }

  /** No two placeholder names are the same: each pair already differs in
      length or in first letter. */
  lemma NamesDistinct()
    ensures forall k, l :: 0 <= k < |TokenNames| && 0 <= l < |TokenNames| && k != l ==>
              TokenNames[k] != TokenNames[l]
  {
    assert forall k :: 0 <= k < |TokenNames| ==> |TokenNames[k]| > 0;
    assert forall k, l :: 0 <= k < |TokenNames| && 0 <= l < |TokenNames| && k != l ==>
             |TokenNames[k]| != |TokenNames[l]| || TokenNames[k][0] != TokenNames[l][0];
  }

  /** No placeholder occurs inside a different placeholder. */
  lemma TokensDistinct()
    ensures forall k, l :: 0 <= k < |Tokens| && 0 <= l < |Tokens| && k != l ==> !Contains(Tokens[k], Tokens[l])
  {
    TokensSpelling();
    TokensAreNamed();
    NamesDistinct();
    forall k, l | 0 <= k < |Tokens| && 0 <= l < |Tokens| && k != l
      ensures !Contains(Tokens[k], Tokens[l])
    {
      PlaceholderInjective(TokenNames[k], TokenNames[l]);
      BracedContainment(Tokens[k], Tokens[l]);
    }
  }

  /** The placeholders of a substitution table are non-empty, and none
      occurs inside another. */
  lemma TableTokensDistinct(cfg: Config)
    ensures NonEmptyTokens(Substitutions(cfg))
    ensures forall j, k :: 0 <= j < |Tokens| && 0 <= k < |Tokens| && j != k ==>
              !Contains(Substitutions(cfg)[k].token, Substitutions(cfg)[j].token)
  {
    TokensSpelling();
    TokensDistinct();
  }

  /** The k-th placeholder on its own renders to its value, rendered further
      by the steps after k: the earlier steps leave it alone, and the later
      steps also rewrite placeholders the value itself carries. */
  lemma {:induction false} ApplyAllOfToken(table: seq<Substitution>, k: nat)
    requires NonEmptyTokens(table) && k < |table|
    requires forall j :: 0 <= j < k ==> !Contains(table[k].token, table[j].token)
    ensures ApplyAll(table[k].token, table) == ApplyAll(table[k].value, table[k + 1..])
    decreases k
  {
    if k == 0 {
      ReplaceAllOfPattern(table[0].token, table[0].value);
    } else {
      var t := table[k].token;
      assert ReplaceAll(t, table[0].token, table[0].value) == t;
      ApplyAllOfToken(table[1..], k - 1);
      assert table[1..][k - 1 + 1..] == table[k + 1..];
    }
  }

  /** The steps from `from` on leave alone a text holding none of their
      placeholders. */
  lemma ApplyAllUntouched(s: string, table: seq<Substitution>, from: nat)
    requires NonEmptyTokens(table) && from <= |table|
    requires forall k :: from <= k < |table| ==> !Contains(s, table[k].token)
    ensures ApplyAll(s, table[from..]) == s
  {
    var later := table[from..];
    assert forall k :: 0 <= k < |later| ==> later[k] == table[from + k];
  }

  /** Rendering `{{APP_NAME}}` yields the application name put through the
      six later steps: placeholders inside the name are substituted too. */
  lemma RenderAppNameToken(cfg: Config)
    ensures Render(AppNameToken, cfg) == ApplyAll(cfg.appName, Substitutions(cfg)[1..])
  {
    ApplyAllOfToken(Substitutions(cfg), 0);
  }

  /** The k-th placeholder on its own renders to exactly its value when the
      value holds none of the later placeholders. */
  lemma RenderTokenToValue(cfg: Config, k: nat)
    requires k < |Tokens|
    requires forall m :: k < m < |Tokens| ==> !Contains(Substitutions(cfg)[k].value, Tokens[m])
    ensures Render(Tokens[k], cfg) == Substitutions(cfg)[k].value
  {
    var table := Substitutions(cfg);
    TableTokensDistinct(cfg);
    ApplyAllOfToken(table, k);
    ApplyAllUntouched(table[k].value, table, k + 1);
  }

  /** The four build-tool placeholders render to the pinned versions. */
  lemma RenderVersionTokens(cfg: Config)
    ensures Render(GradleVersionToken, cfg) == GradleVersion
    ensures Render(AgpVersionToken, cfg) == AGPVersion
    ensures Render(KotlinVersionToken, cfg) == KotlinVersion
    ensures Render(CbomVersionToken, cfg) == ComposeBomVersion
  {
    var table := Substitutions(cfg);
    VersionsAreSafe();
    TokensSpelling();
    forall k, m | 3 <= k < m < |Tokens|
      ensures !Contains(table[k].value, Tokens[m])
    {
      NotContainsByChar(table[k].value, Tokens[m], 0);
    }
    RenderTokenToValue(cfg, 3);
    RenderTokenToValue(cfg, 4);
    RenderTokenToValue(cfg, 5);
    RenderTokenToValue(cfg, 6);
  }

  /** `{{MIN_SDK}}` renders to the minimum SDK answer when the answer holds
      none of the version placeholders. */
  lemma RenderMinSdkToken(cfg: Config)
    requires forall m :: 3 <= m < |Tokens| ==> !Contains(cfg.minSdk, Tokens[m])
    ensures Render(MinSdkToken, cfg) == cfg.minSdk
  {
    RenderTokenToValue(cfg, 2);
  }

  /** An application name that is itself the `{{MIN_SDK}}` placeholder comes
      out as the minimum SDK: the sequential steps chain. */
  lemma RenderChainsThroughAppName(cfg: Config)
    requires cfg.appName == MinSdkToken
    requires forall k :: 3 <= k < |Tokens| ==> !Contains(cfg.minSdk, Tokens[k])
    ensures Render(AppNameToken, cfg) == cfg.minSdk
  {
    var table := Substitutions(cfg);
    var rest := table[1..];
    RenderAppNameToken(cfg);
    TableTokensDistinct(cfg);
    assert rest[0] == table[1] && rest[1] == table[2];
    assert NonEmptyTokens(rest);
    ApplyAllOfToken(rest, 1);
    assert rest[2..] == table[3..];
    ApplyAllUntouched(cfg.minSdk, table, 3);
  }

  /** For a valid package name, `{{PACKAGE_NAME}}` renders to exactly that
      name. */
  lemma RenderPackageNameToken(cfg: Config)
    requires IsPackageName(cfg.packageName)
    ensures Render(PackageNameToken, cfg) == cfg.packageName
  {
    var table := Substitutions(cfg);
    TableTokensDistinct(cfg);
    ApplyAllOfToken(table, 1);
    NoBraceInPackageName(cfg.packageName);
    TokensSpelling();
    var later := table[2..];
    forall k | 0 <= k < |later|
      ensures !Contains(cfg.packageName, later[k].token)
    {
      assert later[k].token == Tokens[k + 2];
      NotContainsByChar(cfg.packageName, Tokens[k + 2], 0);
    }
  }

  /** Text in front without the placeholders' first character passes
      through every step unchanged. */
  lemma {:induction false} ApplyAllAfterPlain(a: string, s: string, table: seq<Substitution>)
    requires NonEmptyTokens(table)
    requires forall k :: 0 <= k < |table| ==> table[k].token[0] !in a
    ensures ApplyAll(a + s, table) == a + ApplyAll(s, table)
    decreases |table|
  {
    if |table| > 0 {
      var t := table[0].token;
      NoOccurrenceInFront(a, s, t);
      ReplaceAllAfterPlain(a, s, t, table[0].value);
      assert forall k :: 0 <= k < |table[1..]| ==> table[1..][k] == table[k + 1];
      ApplyAllAfterPlain(a, ReplaceAll(s, t, table[0].value), table[1..]);
    }
  }

  /** A package line of a Kotlin source, `package {{PACKAGE_NAME}}`, renders
      to `package ` followed by the (valid) package name. */
  lemma RenderPackageLine(cfg: Config)
    requires IsPackageName(cfg.packageName)
    ensures Render("package " + PackageNameToken, cfg) == "package " + cfg.packageName
  {
    var table := Substitutions(cfg);
    TableTokensDistinct(cfg);
    TokensSpelling();
    assert forall k :: 0 <= k < |table| ==> table[k].token[0] == '{';
    ApplyAllAfterPlain("package ", PackageNameToken, table);
    RenderPackageNameToken(cfg);
  }

  /** A package name holds no brace, and starts with a lower-case letter. */
  lemma NoBraceInPackageName(pkg: string)
    requires IsPackageName(pkg)
    ensures '{' !in pkg && '}' !in pkg
    ensures |pkg| > 0 && IsLower(pkg[0])
  {
    PackageNameAlphabet(pkg);
    PackageNameBySplit(pkg);
    var first := Split(pkg, '.')[0];
    assert ValidToken(first);
    assert |pkg| > 0 && pkg[0] == first[0];
  }

  /** A value without braces that has one character no placeholder uses is
      safe for every placeholder. */
  lemma SafeByChar(v: string, t: string, m: nat)
    requires PlaceholderSpelling(t)
    requires m < |v| && !PlaceholderChar(v[m])
    requires '{' !in v && '}' !in v
    ensures SafeReplacement(v, t)
  {
    NotContainsByChar(t, v, m);
  }

  /** Every value of the run can never take part in an occurrence of a
      placeholder. */
  ghost predicate SafeValues(cfg: Config) {
    forall k :: 0 <= k < |Tokens| ==>
      SafeReplacement(cfg.appName, Tokens[k]) &&
      SafeReplacement(cfg.packageName, Tokens[k]) &&
      SafeReplacement(cfg.minSdk, Tokens[k])
  }

  lemma VersionsAreSafe()
    ensures forall k :: 0 <= k < |Tokens| ==>
              SafeReplacement(GradleVersion, Tokens[k]) &&
              SafeReplacement(AGPVersion, Tokens[k]) &&
              SafeReplacement(KotlinVersion, Tokens[k]) &&
              SafeReplacement(ComposeBomVersion, Tokens[k])
  {
    TokensSpelling();
    assert '{' !in GradleVersion && '}' !in GradleVersion;
    assert '{' !in AGPVersion && '}' !in AGPVersion;
    assert '{' !in KotlinVersion && '}' !in KotlinVersion;
    assert '{' !in ComposeBomVersion && '}' !in ComposeBomVersion;
    forall k | 0 <= k < |Tokens|
      ensures SafeReplacement(GradleVersion, Tokens[k]) &&
              SafeReplacement(AGPVersion, Tokens[k]) &&
              SafeReplacement(KotlinVersion, Tokens[k]) &&
              SafeReplacement(ComposeBomVersion, Tokens[k])
    {
      SafeByChar(GradleVersion, Tokens[k], 0);
      SafeByChar(AGPVersion, Tokens[k], 0);
      SafeByChar(KotlinVersion, Tokens[k], 0);
      SafeByChar(ComposeBomVersion, Tokens[k], 0);
    }
  }

  /** A valid package name is a safe value. */
  lemma PackageNameIsSafe(pkg: string)
    requires IsPackageName(pkg)
    ensures forall k :: 0 <= k < |Tokens| ==> SafeReplacement(pkg, Tokens[k])
  {
    NoBraceInPackageName(pkg);
    TokensSpelling();
    forall k | 0 <= k < |Tokens|
      ensures SafeReplacement(pkg, Tokens[k])
    {
      SafeByChar(pkg, Tokens[k], 0);
    }
  }

  /** No placeholder survives a run of the steps when every value is safe
      for it and it is either one of the steps' placeholders or absent to
      begin with. */
  lemma {:induction false} ApplyAllNoResidual(s: string, table: seq<Substitution>, t: string)
    requires NonEmptyTokens(table)
    requires forall j :: 0 <= j < |table| ==> SafeReplacement(table[j].value, t)
    requires (exists j :: 0 <= j < |table| && table[j].token == t) || !Contains(s, t)
    ensures !Contains(ApplyAll(s, table), t)
    decreases |table|
  {
    if |table| > 0 {
      var s' := ReplaceAll(s, table[0].token, table[0].value);
      if table[0].token == t || !Contains(s, t) {
        ReplaceAllNoResidual(s, table[0].token, table[0].value, t);
        ApplyAllNoResidual(s', table[1..], t);
      } else {
        var j :| 0 <= j < |table| && table[j].token == t;
        assert table[1..][j - 1].token == t;
        ApplyAllNoResidual(s', table[1..], t);
      }
    }
  }

  /** When the three answers are safe values, rendering leaves none of the
      seven placeholders behind, whatever the template content. */
  lemma RenderLeavesNoPlaceholder(content: string, cfg: Config)
    requires SafeValues(cfg)
    ensures forall k :: 0 <= k < |Tokens| ==> !Contains(Render(content, cfg), Tokens[k])
  {
    var table := Substitutions(cfg);
    VersionsAreSafe();
    forall k | 0 <= k < |Tokens|
      ensures !Contains(Render(content, cfg), Tokens[k])
    {
      assert table[k].token == Tokens[k];
      ApplyAllNoResidual(content, table, Tokens[k]);
    }
  }

  /** The answers offered by default (main.go:120, 125, 135). */
  const DefaultAnswers := Config("Mad", "com.example.myapp", MinSdk)

  /** The three dot-separated tokens of the default package. */
  const DefaultPackageTokens := ["com", "example", "myapp"]

  lemma DefaultTokensValid()
    ensures AllValid(DefaultPackageTokens)
  {
    assert ValidToken("com") by { assert "com"[1..] == "om"; }
    assert ValidToken("example") by { assert "example"[1..] == "xample"; }
    assert ValidToken("myapp") by { assert "myapp"[1..] == "yapp"; }
  }

  lemma DefaultPackageJoin()
    ensures JoinWith(DefaultPackageTokens, '.') == DefaultAnswers.packageName
  {
    JoinThree("com", "example", "myapp", '.');
  }

  /** The default package lives in `com/example/myapp`. */
  lemma DefaultPackagePath()
    ensures PackagePath(DefaultAnswers.packageName) == "com/example/myapp"
  {
    DefaultPackageJoin();
    assert forall k :: 0 <= k < |DefaultPackageTokens| ==> '.' !in DefaultPackageTokens[k];
    PackagePathOfJoin(DefaultPackageTokens);
    JoinThree("com", "example", "myapp", '/');
    DefaultPathSpelled();
  }

  /** The literal spelling, stated apart so the solver compares it alone. */
  lemma DefaultPathSpelled()
    ensures "com" + "/" + "example" + "/" + "myapp" == "com/example/myapp"
  {
  }

  /** The default package `com.example.myapp` passes the format check. */
  lemma DefaultPackageIsValid()
    ensures IsPackageName(DefaultAnswers.packageName)
  {
    DefaultTokensValid();
    DefaultPackageJoin();
  }

  lemma DefaultAnswersAreSafe()
    ensures SafeValues(DefaultAnswers)
  {
    var cfg := DefaultAnswers;
    DefaultPackageIsValid();
    PackageNameIsSafe(cfg.packageName);
    TokensSpelling();
    assert '{' !in cfg.appName && '}' !in cfg.appName && !PlaceholderChar(cfg.appName[1]);
    assert '{' !in cfg.minSdk && '}' !in cfg.minSdk && !PlaceholderChar(cfg.minSdk[0]);
    forall k | 0 <= k < |Tokens|
      ensures SafeReplacement(cfg.appName, Tokens[k]) && SafeReplacement(cfg.minSdk, Tokens[k])
    {
      SafeByChar(cfg.appName, Tokens[k], 1);
      SafeByChar(cfg.minSdk, Tokens[k], 0);
    }
  }

  /** The default answers `Mad`, `com.example.myapp`, `24` leave no
      placeholder in any rendered file, and `{{PACKAGE_NAME}}` becomes
      `com.example.myapp`. */
  lemma RenderDefaultAnswers(content: string)
    ensures forall k :: 0 <= k < |Tokens| ==> !Contains(Render(content, DefaultAnswers), Tokens[k])
    ensures Render(PackageNameToken, DefaultAnswers) == "com.example.myapp"
  {
    DefaultAnswersAreSafe();
    RenderLeavesNoPlaceholder(content, DefaultAnswers);
    DefaultPackageIsValid();
    RenderPackageNameToken(DefaultAnswers);
  }
}
