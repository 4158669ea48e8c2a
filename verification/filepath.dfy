/** The two `path/filepath` functions the generator calls, for slash-separated
    paths: `Join` (main.go:189, 203) and `Base` (main.go:232). */
module FilePath {
  import opened Text

  /** `filepath.Join(dir, rel)` for already-clean relative paths: the two
      parts with one separator between them; an empty part is dropped. */
  function Join(dir: string, rel: string): (p: string)
    ensures |dir| > 0 && |rel| > 0 ==> EndsWith(p, "/" + rel)
  {
    if |dir| == 0 then rel
    else if |rel| == 0 then dir
    else dir + "/" + rel
  }

  /** Drops every trailing `/`. */
  function TrimTrailingSlashes(p: string): (r: string)
    ensures r <= p
    ensures |r| == 0 || r[|r| - 1] != '/'
    ensures forall i :: |r| <= i < |p| ==> p[i] == '/'
    decreases |p|
  {
    if |p| > 0 && p[|p| - 1] == '/' then TrimTrailingSlashes(p[..|p| - 1]) else p
  }

  /** The longest suffix of `p` without a `/`. */
  function LastElement(p: string): (r: string)
    ensures '/' !in r
    ensures EndsWith(p, r)
    ensures |r| == |p| || p[|p| - |r| - 1] == '/'
    decreases |p|
  {
    if |p| == 0 || p[|p| - 1] == '/' then ""
    else
      var init := p[..|p| - 1];
      var r' := LastElement(init);
      assert p[|p| - |r'| - 1..] == init[|init| - |r'|..] + [p[|p| - 1]];
      r' + [p[|p| - 1]]
  }

  /** `filepath.Base` on a slash-separated path: "." for the empty path,
      "/" for a path of slashes only, otherwise the last element after
      trailing slashes are removed. */
  function Base(p: string): string {
    if |p| == 0 then "."
    else
      var q := TrimTrailingSlashes(p);
      if |q| == 0 then "/" else LastElement(q)
  }

  /** Two suffixes of one text with the same length are the same. */
  lemma SameLengthSuffixes(p: string, a: string, b: string)
    requires EndsWith(p, a) && EndsWith(p, b) && |a| == |b|
    ensures a == b
  {
  }

  /** A path without `/` is its own last element. */
  lemma LastElementOfElement(p: string)
    requires '/' !in p
    ensures LastElement(p) == p
  {
    var r := LastElement(p);
    if |r| < |p| {
      assert p[|p| - |r| - 1] in p;
    }
    SameLengthSuffixes(p, r, p[0..]);
  }

  /** A path ending in `/name` has last element `name`. */
  lemma LastElementAfterSlash(p: string, name: string)
    requires EndsWith(p, "/" + name) && '/' !in name
    ensures LastElement(p) == name
  {
    var r := LastElement(p);
    var k := |p| - |name| - 1;
    assert p[k] == ("/" + name)[0] == '/';
    SameLengthSuffixes(p, r, name) by {
      assert EndsWith(p, name) by {
        assert p[|p| - |name|..] == ("/" + name)[1..];
      }
    }
  }

  /** A path whose last element is `name` and which is longer than it ends
      in `/name`. */
  lemma SlashBeforeLastElement(p: string, name: string)
    requires LastElement(p) == name && |name| < |p|
    ensures EndsWith(p, "/" + name)
  {
    var k := |p| - |name| - 1;
    var q := p[k..];
    HeadTail(q);
    assert q[0] == '/';
    assert q[1..] == p[k + 1..];
  }

  /** For a path that does not end in `/`, its base is the element `name`
      exactly when the path is `name` or ends in `/name`. */
  lemma BaseIsName(p: string, name: string)
    requires |p| > 0 && p[|p| - 1] != '/'
    requires |name| > 0 && '/' !in name
    ensures Base(p) == name <==> p == name || EndsWith(p, "/" + name)
  {
    assert TrimTrailingSlashes(p) == p;
    var r := LastElement(p);
    assert Base(p) == r;
    if r == name {
      if |r| < |p| {
        SlashBeforeLastElement(p, name);
      } else {
        SameLengthSuffixes(p, r, p[0..]);
      }
    }
    if p == name {
      LastElementOfElement(p);
    }
    if EndsWith(p, "/" + name) {
      LastElementAfterSlash(p, name);
    }
  }

  /** A path ending in `/rel` ends in `/name` exactly when `rel` is `name`
      or itself ends in `/name`, provided `name` holds no `/`. */
  lemma EndsWithSlashName(p: string, rel: string, name: string)
    requires EndsWith(p, "/" + rel)
    requires '/' !in name
    ensures EndsWith(p, "/" + name) <==> rel == name || EndsWith(rel, "/" + name)
  {
    var slashName := "/" + name;
    var slashRel := "/" + rel;
    var n := |p|;
    if |rel| > |name| {
      assert p[n - |slashName|..] == slashRel[|slashRel| - |slashName|..];
      assert slashRel[|slashRel| - |slashName|..] == rel[|rel| - |slashName|..];
    } else if |rel| == |name| {
      assert p[n - |slashName|..] == slashRel;
      if slashRel == slashName {
        assert rel == slashRel[1..] == slashName[1..] == name;
      }
    } else if |slashName| <= n {
      var k := |name| - |rel|;
      assert p[n - |slashRel|] == slashRel[0] == '/';
      assert slashName[k] == name[k - 1] != '/';
      assert p[n - |slashName|..][k] != slashName[k];
    }
  }

  /** Joined below a directory, a relative path has base `name` exactly
      when the relative path is `name` or ends in `/name`: the directory
      never decides. */
  lemma BaseOfJoin(dir: string, rel: string, name: string)
    requires |dir| > 0 && |rel| > 0 && rel[|rel| - 1] != '/'
    requires |name| > 0 && '/' !in name
    ensures Base(Join(dir, rel)) == name <==> rel == name || EndsWith(rel, "/" + name)
  {
    var p := Join(dir, rel);
    assert p == dir + "/" + rel;
    assert p[|p| - 1] == rel[|rel| - 1];
    BaseIsName(p, name);
    assert p != name by {
      assert p[|dir|] == '/';
    }
    EndsWithSlashName(p, rel, name);
  }
}
