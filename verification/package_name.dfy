/** The package-name check applied to the user's answer (`validatePackageName`,
    main.go:26-38) and the directory path derived from a package name
    (main.go:162).

    The source matches the regular expression
    `^[a-z][a-z0-9_]*(\.[a-z][a-z0-9_]*)*$`; here the expression is replaced
    by a three-state recogniser, and its language is defined independently as
    "one or more valid tokens joined by dots". */
module PackageName {
  import opened Wrappers
  import opened Text

  const InvalidFormatMessage := "invalid package name format. Use: com.example.appname"

  predicate IsLower(c: char) {
    'a' <= c <= 'z'
  }

  /** `[a-z0-9_]` */
  predicate IsTokenChar(c: char) {
    IsLower(c) || ('0' <= c <= '9') || c == '_'
  }

  /** Every character of `t` is in `[a-z0-9_]`. */
  ghost predicate TokenTail(t: string) {
    forall i :: 0 <= i < |t| ==> IsTokenChar(t[i])
  }

  /** `[a-z][a-z0-9_]*` */
  ghost predicate ValidToken(t: string) {
    |t| > 0 && IsLower(t[0]) && TokenTail(t[1..])
  }

  ghost predicate AllValid(toks: seq<string>) {
    forall k :: 0 <= k < |toks| ==> ValidToken(toks[k])
  }

  /** The language of the source's regular expression: one or more valid
      tokens joined by dots. */
  ghost predicate IsPackageName(s: string) {
    exists toks: seq<string> :: |toks| >= 1 && AllValid(toks) && s == JoinWith(toks, '.')
  }

  /** The recogniser's states: at the start of a token (the beginning of the
      text, or just after a dot), inside a token, or failed for good. */
  datatype ScanState = TokenStart | InToken | Rejected

  function Next(st: ScanState, c: char): ScanState {
    match st
    case TokenStart => if IsLower(c) then InToken else Rejected
    case InToken =>
      if c == '.' then TokenStart
      else if IsTokenChar(c) then InToken
      else Rejected
    case Rejected => Rejected
  }

  /** Feeds `s` to the recogniser from state `st`, left to right. */
  function Run(st: ScanState, s: string): ScanState
    decreases |s|
  {
    if |s| == 0 then st else Run(Next(st, s[0]), s[1..])
  }

  /** The whole text is accepted when the scan ends inside a token. */
  predicate Matches(s: string) {
    Run(TokenStart, s) == InToken
  }

  lemma {:induction false} RejectedIsFinal(s: string)
    ensures Run(Rejected, s) == Rejected
    decreases |s|
  {
    if |s| > 0 {
      RejectedIsFinal(s[1..]);
    }
  }

  /** From inside a token, the recogniser accepts the rest of that token
      followed by whole tokens. */
  ghost predicate InTokenAccepts(s: string) {
    var parts := Split(s, '.');
    Run(InToken, s) == InToken <==>
      TokenTail(parts[0]) && forall k :: 1 <= k < |parts| ==> ValidToken(parts[k])
  }

  /** From the start of a token, the recogniser accepts whole tokens only. */
  ghost predicate TokenStartAccepts(s: string) {
    Run(TokenStart, s) == InToken <==> AllValid(Split(s, '.'))
  }

  /** What the recogniser accepts from each state, in terms of the
      dot-separated parts of the rest of the text. */
  lemma {:induction false} RunMeaning(s: string)
    ensures InTokenAccepts(s) && TokenStartAccepts(s)
    decreases |s|
  {
    if |s| > 0 {
      RunMeaning(s[1..]);
      if s[0] == '.' {
        RunMeaningDot(s);
      } else {
        RunMeaningOther(s);
      }
    }
  }

  /** A dot ends the current token and starts the next one. */
  lemma RunMeaningDot(s: string)
    requires |s| > 0 && s[0] == '.'
    requires InTokenAccepts(s[1..]) && TokenStartAccepts(s[1..])
    ensures InTokenAccepts(s) && TokenStartAccepts(s)
  {
    var rest := Split(s[1..], '.');
    var parts := Split(s, '.');
    RejectedIsFinal(s[1..]);
    assert Run(InToken, s) == Run(TokenStart, s[1..]);
    assert Run(TokenStart, s) == Run(Rejected, s[1..]);
    assert parts == [""] + rest;
    assert forall k :: 1 <= k < |parts| ==> parts[k] == rest[k - 1];
    assert !ValidToken(parts[0]);
    assert AllValid(rest) ==> forall k :: 1 <= k < |parts| ==> ValidToken(parts[k]);
    assert (forall k :: 1 <= k < |parts| ==> ValidToken(parts[k])) ==> AllValid(rest) by {
      if forall k :: 1 <= k < |parts| ==> ValidToken(parts[k]) {
        forall k | 0 <= k < |rest|
          ensures ValidToken(rest[k])
        {
          assert parts[k + 1] == rest[k];
        }
      }
    }
  }

  /** Any other character extends the current token. */
  lemma RunMeaningOther(s: string)
    requires |s| > 0 && s[0] != '.'
    requires InTokenAccepts(s[1..]) && TokenStartAccepts(s[1..])
    ensures InTokenAccepts(s) && TokenStartAccepts(s)
  {
    var c := s[0];
    var rest := Split(s[1..], '.');
    var parts := Split(s, '.');
    RejectedIsFinal(s[1..]);
    var first := [c] + rest[0];
    assert parts == [first] + rest[1..];
    assert first[1..] == rest[0];
    assert forall k :: 1 <= k < |parts| ==> parts[k] == rest[k];
    TokenTailCons(c, rest[0]);
    assert parts[0] == first;
    if ValidToken(first) && forall k :: 1 <= k < |parts| ==> ValidToken(parts[k]) {
      assert forall k :: 0 <= k < |parts| ==> ValidToken(parts[k]);
    }
  }

  lemma TokenTailCons(c: char, t: string)
    ensures TokenTail([c] + t) <==> IsTokenChar(c) && TokenTail(t)
  {
    var first := [c] + t;
    if TokenTail(first) {
      assert IsTokenChar(first[0]);
      forall i | 0 <= i < |t|
        ensures IsTokenChar(t[i])
      {
        assert first[i + 1] == t[i];
      }
    }
    if IsTokenChar(c) && TokenTail(t) {
      forall i | 0 <= i < |first|
        ensures IsTokenChar(first[i])
      {
        if i > 0 {
          assert first[i] == t[i - 1];
        }
      }
    }
  }

  /** A valid token holds no dot. */
  lemma ValidTokenHasNoDot(t: string)
    requires ValidToken(t)
    ensures '.' !in t
  {
    forall i | 0 <= i < |t|
      ensures t[i] != '.'
    {
      if i > 0 {
        assert t[i] == t[1..][i - 1];
      }
    }
  }

  /** The split form of the regular expression's language. */
  lemma PackageNameBySplit(s: string)
    ensures IsPackageName(s) <==> AllValid(Split(s, '.'))
  {
    if IsPackageName(s) {
      var toks :| |toks| >= 1 && AllValid(toks) && s == JoinWith(toks, '.');
      forall k | 0 <= k < |toks|
        ensures '.' !in toks[k]
      {
        ValidTokenHasNoDot(toks[k]);
      }
      JoinThenSplit(toks, '.');
    }
    if AllValid(Split(s, '.')) {
      SplitThenJoin(s, '.');
    }
  }

  /** The recogniser accepts exactly the language of the regular expression. */
  lemma MatchesIsPackageName(s: string)
    ensures Matches(s) <==> IsPackageName(s)
  {
    RunMeaning(s);
    PackageNameBySplit(s);
  }

  /** `validatePackageName`: no error for a well-formed package name, the
      source's format error otherwise. */
  function ValidatePackageName(s: string): (err: Option<string>)
    ensures err.None? <==> IsPackageName(s)
    ensures err.Some? ==> err.value == InvalidFormatMessage
  {
    MatchesIsPackageName(s);
    if Matches(s) then None else Some(InvalidFormatMessage)
  }

  /** Only dots and token characters survive the recogniser. */
  lemma {:induction false} RunAllowsOnly(st: ScanState, s: string)
    requires Run(st, s) == InToken
    ensures forall i :: 0 <= i < |s| ==> s[i] == '.' || IsTokenChar(s[i])
    decreases |s|
  {
    if |s| > 0 {
      if s[0] != '.' && !IsTokenChar(s[0]) {
        assert Next(st, s[0]) == Rejected;
        RejectedIsFinal(s[1..]);
      }
      RunAllowsOnly(Next(st, s[0]), s[1..]);
      assert forall i :: 1 <= i < |s| ==> s[i] == s[1..][i - 1];
    }
  }

  /** A package name uses only `[a-z0-9_.]`. */
  lemma PackageNameAlphabet(s: string)
    requires IsPackageName(s)
    ensures forall i :: 0 <= i < |s| ==> s[i] == '.' || IsTokenChar(s[i])
  {
    MatchesIsPackageName(s);
    RunAllowsOnly(TokenStart, s);
  }

  /** The empty string and a leading dot are turned away. */
  lemma RejectsEmptyOrLeadingDot(s: string)
    requires |s| == 0 || s[0] == '.'
    ensures !IsPackageName(s)
  {
    PackageNameBySplit(s);
    assert Split(s, '.')[0] == "";
  }

  /** A trailing dot is turned away. */
  lemma RejectsTrailingDot(s: string)
    requires |s| > 0 && s[|s| - 1] == '.'
    ensures !IsPackageName(s)
  {
    PackageNameBySplit(s);
    var a := s[..|s| - 1];
    SplitLast(s);
    SplitConcat(a, [], '.');
    var parts := Split(s, '.');
    assert parts[|parts| - 1] == "";
  }

  /** Two dots in a row are turned away. */
  lemma RejectsDoubleDot(s: string, i: nat)
    requires i + 1 < |s| && s[i] == '.' && s[i + 1] == '.'
    ensures !IsPackageName(s)
  {
    PackageNameBySplit(s);
    var a := s[..i];
    var b := s[i + 1..];
    SplitAround(s, i);
    SplitConcat(a, b, '.');
    assert Split(b, '.')[0] == "";
    assert Split(s, '.')[|Split(a, '.')|] == "";
  }

  /** An upper-case letter anywhere is turned away. */
  lemma RejectsUpperCase(s: string, i: nat)
    requires i < |s| && 'A' <= s[i] <= 'Z'
    ensures !IsPackageName(s)
  {
    if IsPackageName(s) {
      PackageNameAlphabet(s);
    }
  }

  /** The package as a relative directory path: every `.` becomes `/`
      (`targetPackagePath`, main.go:162). */
  function PackagePath(pkg: string): (path: string)
    ensures |path| == |pkg|
    ensures '.' !in path
  {
    ReplaceCharRemoves(pkg, '.', '/');
    ReplacedCharLength(pkg, '.', '/');
    ReplaceAll(pkg, ".", "/")
  }

  lemma {:induction false} ReplacedCharLength(s: string, a: char, b: char)
    ensures |ReplaceAll(s, [a], [b])| == |s|
    decreases |s|
  {
    if |s| > 0 {
      ReplaceCharStep(s, a, b);
      ReplacedCharLength(s[1..], a, b);
    }
  }

  /** Turning dots into slashes turns a dot-join of dot-free parts into the
      slash-join of the same parts. */
  lemma {:induction false} PackagePathOfJoin(parts: seq<string>)
    requires |parts| >= 1
    requires forall k :: 0 <= k < |parts| ==> '.' !in parts[k]
    ensures PackagePath(JoinWith(parts, '.')) == JoinWith(parts, '/')
    decreases |parts|
  {
    assert !Contains(parts[0], ".") by {
      NotContainsByChar(parts[0], ".", 0);
    }
    if |parts| > 1 {
      PackagePathOfJoin(parts[1..]);
      var rest := JoinWith(parts[1..], '.');
      ReplaceCharConcat(parts[0] + ".", rest, '.', '/');
      ReplaceCharConcat(parts[0], ".", '.', '/');
      ReplaceAllOfPattern(".", "/");
    }
  }

  /** For a valid package name, the `/`-separated segments of its path are
      exactly its dot-separated tokens, in order, and all of them valid. */
  lemma PackagePathSegments(pkg: string)
    requires IsPackageName(pkg)
    ensures Split(PackagePath(pkg), '/') == Split(pkg, '.')
    ensures AllValid(Split(PackagePath(pkg), '/'))
  {
    PackageNameAlphabet(pkg);
    SplitAfterReplaceChar(pkg, '.', '/');
    PackageNameBySplit(pkg);
  }

  /** Starting from the tokens: the path of `t1.t2.….tn` splits on `/` into
      `t1, t2, …, tn`. */
  lemma PackagePathOfTokens(toks: seq<string>)
    requires |toks| >= 1 && AllValid(toks)
    ensures Split(PackagePath(JoinWith(toks, '.')), '/') == toks
  {
    var pkg := JoinWith(toks, '.');
    assert IsPackageName(pkg);
    PackagePathSegments(pkg);
    PackageNameBySplit(pkg);
    SplitThenJoin(pkg, '.');
    forall k | 0 <= k < |toks|
      ensures '.' !in toks[k]
    {
      ValidTokenHasNoDot(toks[k]);
    }
    JoinThenSplit(toks, '.');
  }
}
