/** The string primitives of Go's `strings` package that the generator calls
    (`Contains`, `HasPrefix`, `TrimPrefix`, `Index`, `ReplaceAll`), over
    `string` (= seq<char>), with the facts about them the rest of the model
    needs. `Split` and `JoinWith` (Go's `strings.Split` and `strings.Join`)
    are not called by the generator: they are the vocabulary in which the
    package-path property is stated. */
module Text {
  import opened Wrappers

  /** Sequence shapes. They state nothing about the generator: they are
      stated once, as lemmas, so that the proofs about text can call them
      instead of making the solver re-derive each shape by extensionality
      inside a larger proof. */
  lemma ConsParts<T>(x: T, t: seq<T>)
    ensures ([x] + t)[0] == x && ([x] + t)[1..] == t
  {
  }

  lemma HeadTail<T>(a: seq<T>)
    requires |a| > 0
    ensures a == [a[0]] + a[1..]
  {
  }

  lemma AppendAssoc<T>(x: seq<T>, y: seq<T>, z: seq<T>)
    ensures (x + y) + z == x + (y + z)
  {
  }

  lemma AppendTail<T>(a: seq<T>, b: seq<T>)
    requires |a| > 0
    ensures (a + b)[0] == a[0] && (a + b)[1..] == a[1..] + b
  {
  }

  lemma EmptyAppend<T>(a: seq<T>, b: seq<T>)
    requires |a| == 0
    ensures a + b == b
  {
  }

  lemma TakeOneMore<T>(s: seq<T>, i: nat)
    requires i < |s|
    ensures s[..i + 1] == s[..i] + [s[i]]
  {
  }

  lemma TakeDrop<T>(s: seq<T>, i: nat)
    requires i <= |s|
    ensures s[..i] + s[i..] == s
  {
  }

  lemma PrefixOfAppend<T>(a: seq<T>, b: seq<T>)
    ensures (a + b)[..|a|] == a
  {
  }

  lemma MiddleOfAppend<T>(a: seq<T>, b: seq<T>, c: seq<T>)
    ensures (a + (b + c))[|a|..|a| + |b|] == b
  {
  }

  /** The last element split off, in the shape `front + [last] + rest` of
      `SplitAround` with an empty rest. */
  lemma SplitLast<T>(s: seq<T>)
    requires |s| > 0
    ensures s == s[..|s| - 1] + [s[|s| - 1]] + []
  {
  }

  lemma SplitAround<T>(s: seq<T>, i: nat)
    requires i < |s|
    ensures s == s[..i] + [s[i]] + s[i + 1..]
  {
  }

  lemma ThreeParts<T>(a: seq<T>, b: seq<T>, c: seq<T>)
    ensures (a + b + c)[..|a|] == a
    ensures (a + b + c)[|a|..|a| + |b|] == b
    ensures (a + b + c)[|a| + |b|..] == c
  {
  }

  lemma ConsTake<T>(s: seq<T>, n: nat)
    requires n < |s|
    ensures [s[0]] + s[1..][..n] == s[..n + 1]
  {
  }

  /** `t` occurs in `s` starting at index `i`. */
  predicate OccursAt(s: string, t: string, i: nat) {
    i + |t| <= |s| && s[i..i + |t|] == t
  }

  /** `t` is a substring of `s`. */
  ghost predicate Contains(s: string, t: string) {
    exists i: nat :: OccursAt(s, t, i)
  }

  /** `i` is the leftmost occurrence of `t` in `s`. */
  ghost predicate FirstOccurrence(s: string, t: string, i: nat) {
    OccursAt(s, t, i) && forall j: nat :: j < i ==> !OccursAt(s, t, j)
  }

  /** `s` ends with `t`. */
  predicate EndsWith(s: string, t: string) {
    |t| <= |s| && s[|s| - |t|..] == t
  }

  /** Go's `strings.HasPrefix`. */
  predicate HasPrefix(s: string, prefix: string) {
    prefix <= s
  }

  /** Go's `strings.TrimPrefix`: drops `prefix` when `s` starts with it. */
  function TrimPrefix(s: string, prefix: string): (r: string)
    ensures HasPrefix(s, prefix) ==> s == prefix + r
    ensures !HasPrefix(s, prefix) ==> r == s
  {
    if HasPrefix(s, prefix) then s[|prefix|..] else s
  }

  lemma OccursAtTail(s: string, t: string, j: nat)
    requires |s| > 0
    ensures OccursAt(s, t, j + 1) <==> OccursAt(s[1..], t, j)
  {
    if j + 1 + |t| <= |s| {
      assert s[1..][j..j + |t|] == s[j + 1..j + 1 + |t|];
    }
  }

  /** An occurrence in a suffix of `s` is an occurrence in `s`. */
  lemma OccursInSuffix(s: string, t: string, k: nat, i: nat)
    requires k <= |s|
    ensures OccursAt(s[k..], t, i) <==> OccursAt(s, t, k + i)
  {
    if k + i + |t| <= |s| {
      assert s[k..][i..i + |t|] == s[k + i..k + i + |t|];
    }
  }

  lemma NoContainsSuffix(s: string, t: string, k: nat)
    requires k <= |s| && !Contains(s, t)
    ensures !Contains(s[k..], t)
  {
    if Contains(s[k..], t) {
      var i: nat :| OccursAt(s[k..], t, i);
      OccursInSuffix(s, t, k, i);
    }
  }

  /** When `s` does not start with `t`, dropping its first character keeps
      every occurrence of `t`. */
  lemma ContainsShift(s: string, t: string)
    requires |s| > 0 && !(t <= s)
    ensures Contains(s, t) <==> Contains(s[1..], t)
  {
    if Contains(s, t) {
      var j: nat :| OccursAt(s, t, j);
      assert j != 0;
      OccursAtTail(s, t, j - 1);
    }
    if Contains(s[1..], t) {
      var j: nat :| OccursAt(s[1..], t, j);
      OccursAtTail(s, t, j);
    }
  }

  lemma FirstOccurrenceShift(s: string, t: string, i: nat)
    requires |s| > 0 && !(t <= s)
    requires FirstOccurrence(s[1..], t, i)
    ensures FirstOccurrence(s, t, i + 1)
  {
    OccursAtTail(s, t, i);
    forall j: nat | j < i + 1
      ensures !OccursAt(s, t, j)
    {
      if j > 0 {
        OccursAtTail(s, t, j - 1);
      }
    }
  }

  /** There is only one leftmost occurrence. */
  lemma FirstOccurrenceUnique(s: string, t: string, i: nat, j: nat)
    requires FirstOccurrence(s, t, i) && FirstOccurrence(s, t, j)
    ensures i == j
  {
  }

  /** A character of `t` that `s` lacks keeps `t` out of `s`. */
  lemma NotContainsByChar(s: string, t: string, k: nat)
    requires k < |t| && t[k] !in s
    ensures !Contains(s, t)
  {
  }

  /** Go's `strings.Index`, with `None` standing for -1: the leftmost
      occurrence of `t` in `s`, if any. */
  function Index(s: string, t: string): (r: Option<nat>)
    ensures r.Some? ==> FirstOccurrence(s, t, r.value)
    ensures r.None? <==> !Contains(s, t)
    decreases |s|
  {
    if |s| < |t| then None
    else if t <= s then
      assert OccursAt(s, t, 0);
      Some(0)
    else
      ContainsShift(s, t);
      match Index(s[1..], t)
      case None => None
      case Some(i) =>
        FirstOccurrenceShift(s, t, i);
        Some(i + 1)
  }

  /** Go's `strings.ReplaceAll` for a non-empty pattern: scanning left to
      right, every non-overlapping occurrence of `pat` is replaced by `rep`.
      Text without the pattern comes back unchanged. */
  function ReplaceAll(s: string, pat: string, rep: string): (r: string)
    requires |pat| > 0
    ensures !Contains(s, pat) ==> r == s
    decreases |s|
  {
    if |s| < |pat| then s
    else if pat <= s then
      assert OccursAt(s, pat, 0);
      rep + ReplaceAll(s[|pat|..], pat, rep)
    else
      ContainsShift(s, pat);
      [s[0]] + ReplaceAll(s[1..], pat, rep)
  }

  /** Replacing the pattern itself yields the replacement. */
  lemma ReplaceAllOfPattern(pat: string, rep: string)
    requires |pat| > 0
    ensures ReplaceAll(pat, pat, rep) == rep
  {
    assert pat[|pat|..] == [];
    assert ReplaceAll([], pat, rep) == [];
  }

  /** Before the first occurrence of the pattern the text is copied as is. */
  lemma {:induction false} ReplaceAllKeepsPrefix(s: string, pat: string, rep: string, n: nat)
    requires |pat| > 0 && n <= |s|
    requires forall j: nat :: j < n ==> !OccursAt(s, pat, j)
    ensures ReplaceAll(s, pat, rep) == s[..n] + ReplaceAll(s[n..], pat, rep)
    decreases n
  {
    if n > 0 {
      assert !OccursAt(s, pat, 0);
      if |s| < |pat| {
        assert |s[n..]| < |pat|;
        TakeDrop(s, n);
      } else {
        assert !(pat <= s);
        var s' := s[1..];
        forall j: nat | j < n - 1
          ensures !OccursAt(s', pat, j)
        {
          OccursAtTail(s, pat, j);
        }
        ReplaceAllKeepsPrefix(s', pat, rep, n - 1);
        assert s'[n - 1..] == s[n..];
        ConsTake(s, n - 1);
        AppendAssoc([s[0]], s'[..n - 1], ReplaceAll(s[n..], pat, rep));
      }
    }
  }

  /** Text in front that no occurrence of the pattern starts in is copied,
      and the rest is replaced on its own. */
  lemma ReplaceAllAfterPlain(a: string, s: string, pat: string, rep: string)
    requires |pat| > 0
    requires forall j: nat :: j < |a| ==> !OccursAt(a + s, pat, j)
    ensures ReplaceAll(a + s, pat, rep) == a + ReplaceAll(s, pat, rep)
  {
    ReplaceAllKeepsPrefix(a + s, pat, rep, |a|);
    PrefixOfAppend(a, s);
    assert (a + s)[|a|..] == s;
  }

  /** An occurrence of the pattern in the middle of a text is replaced, and
      the text around it is kept, when no occurrence starts in front of
      it. */
  lemma ReplaceAllSplice(a: string, pat: string, b: string, rep: string)
    requires |pat| > 0
    requires forall j: nat :: j < |a| ==> !OccursAt(a + pat + b, pat, j)
    ensures ReplaceAll(a + pat + b, pat, rep) == a + rep + ReplaceAll(b, pat, rep)
  {
    AppendAssoc(a, pat, b);
    ReplaceAllAfterPlain(a, pat + b, pat, rep);
    assert pat <= pat + b;
    assert (pat + b)[|pat|..] == b;
    assert ReplaceAll(pat + b, pat, rep) == rep + ReplaceAll(b, pat, rep);
    AppendAssoc(a, rep, ReplaceAll(b, pat, rep));
  }

  /** No occurrence of `t` starts in a front part lacking `t`'s first
      character. */
  lemma NoOccurrenceInFront(a: string, s: string, t: string)
    requires |t| > 0 && t[0] !in a
    ensures forall j: nat :: j < |a| ==> !OccursAt(a + s, t, j)
  {
    forall j: nat | j < |a|
      ensures !OccursAt(a + s, t, j)
    {
      if j + |t| <= |a + s| {
        assert (a + s)[j..j + |t|][0] == a[j];
      }
    }
  }

  /** Text spliced between a fixed head and two tails is equal exactly
      when the tails are. */
  lemma SpliceInjective(head: string, mid: string, a: string, b: string)
    ensures head + mid + a == head + mid + b <==> a == b
  {
    if head + mid + a == head + mid + b {
      assert a == (head + mid + a)[|head| + |mid|..];
      assert b == (head + mid + b)[|head| + |mid|..];
    }
  }

  /** An occurrence splits its text into before, match and after. */
  lemma SplitAtOccurrence(x: string, t: string, i: nat)
    requires OccursAt(x, t, i)
    ensures x == x[..i] + t + x[i + |t|..]
  {
  }

  /** A replacement value that can never take part in an occurrence of `t`:
      it holds neither the first nor the last character of `t`, and does not
      sit inside `t`. (It is therefore non-empty.) */
  ghost predicate SafeReplacement(rep: string, t: string) {
    |t| > 0 && t[0] !in rep && t[|t| - 1] !in rep && !Contains(t, rep)
  }

  lemma SafeReplacementNonEmpty(rep: string, t: string)
    requires SafeReplacement(rep, t)
    ensures |rep| > 0
  {
    if |rep| == 0 {
      assert OccursAt(t, rep, 0);
    }
  }

  /** A copy of a safe replacement that starts inside the window of an
      occurrence of `t` makes that occurrence impossible. */
  lemma SafeCopyBlocksWindow(r: string, rep: string, t: string, q: nat)
    requires SafeReplacement(rep, t)
    requires 0 < q < |t| && OccursAt(r, rep, q)
    ensures !OccursAt(r, t, 0)
  {
    if q + |rep| <= |t| {
      assert !OccursAt(t, rep, q);
    } else {
      assert r[q..q + |rep|][|t| - 1 - q] == r[|t| - 1];
    }
  }

  /** An occurrence inside `rep + tail` that starts in `rep` would need
      `rep` to hold the first character of `t`. */
  lemma NoResidualAfterCopy(rep: string, tail: string, t: string)
    requires SafeReplacement(rep, t) && !Contains(tail, t)
    ensures !Contains(rep + tail, t)
  {
    var r := rep + tail;
    forall i: nat
      ensures !OccursAt(r, t, i)
    {
      if i >= |rep| {
        assert OccursAt(r, t, i) <==> OccursAt(tail, t, i - |rep|) by {
          if i + |t| <= |r| {
            assert r[i..i + |t|] == tail[i - |rep|..i - |rep| + |t|];
          }
        }
      } else if i + |t| <= |r| {
        assert r[i..i + |t|][0] == r[i];
      }
    }
  }

  /** An occurrence inside `[x] + tail` starts at 0 or lies in `tail`. */
  lemma NoResidualAfterChar(x: char, tail: string, t: string)
    requires !OccursAt([x] + tail, t, 0) && !Contains(tail, t)
    ensures !Contains([x] + tail, t)
  {
    var r := [x] + tail;
    forall i: nat | i > 0
      ensures !OccursAt(r, t, i)
    {
      OccursAtTail(r, t, i - 1);
      assert r[1..] == tail;
    }
  }

  /** The head step of `ReplaceAllNoResidual`: when `s` does not start with
      the pattern, `t` cannot start at index 0 of the result. */
  lemma NoResidualAtHead(s: string, pat: string, rep: string, t: string)
    requires |pat| > 0 && |s| >= |pat| && !(pat <= s)
    requires SafeReplacement(rep, t)
    requires t == pat || !Contains(s, t)
    ensures !OccursAt([s[0]] + ReplaceAll(s[1..], pat, rep), t, 0)
  {
    var s' := s[1..];
    var tail := ReplaceAll(s', pat, rep);
    var r := [s[0]] + tail;
    var n := if |t| - 1 <= |s'| then |t| - 1 else |s'|;
    var idx := Index(s', pat);
    if idx.Some? && idx.value < n {
      HeadBlockedByCopy(s, pat, rep, t, idx.value);
    } else {
      assert forall j: nat :: j < n ==> !OccursAt(s', pat, j);
      NoResidualKeptHead(s, pat, rep, t, n);
    }
  }

  /** When the pattern does not occur in the window of `t` after the head,
      the window is copied from `s`, which `t` does not start. */
  lemma NoResidualKeptHead(s: string, pat: string, rep: string, t: string, n: nat)
    requires |pat| > 0 && |s| >= |pat| && !(pat <= s) && |t| > 0
    requires t == pat || !Contains(s, t)
    requires n == if |t| <= |s| then |t| - 1 else |s| - 1
    requires forall j: nat :: j < n ==> !OccursAt(s[1..], pat, j)
    ensures !OccursAt([s[0]] + ReplaceAll(s[1..], pat, rep), t, 0)
  {
    var s' := s[1..];
    ReplaceAllKeepsPrefix(s', pat, rep, n);
    var head := [s[0]] + s'[..n];
    var tail := ReplaceAll(s'[n..], pat, rep);
    AppendAssoc([s[0]], s'[..n], tail);
    ConsTake(s, n);
    if n == |t| - 1 {
      PrefixOfAppend(head, tail);
      assert !OccursAt(s, t, 0);
    } else {
      assert |s'[n..]| < |pat|;
      assert |head + tail| == |s|;
    }
  }

  /** The pattern's first occurrence after the head lies inside the window of
      `t`, so its replacement blocks `t` at index 0. */
  lemma HeadBlockedByCopy(s: string, pat: string, rep: string, t: string, p: nat)
    requires |pat| > 0 && |s| > 0
    requires SafeReplacement(rep, t)
    requires p + 1 < |t| && FirstOccurrence(s[1..], pat, p)
    ensures !OccursAt([s[0]] + ReplaceAll(s[1..], pat, rep), t, 0)
  {
    var s' := s[1..];
    ReplaceAllKeepsPrefix(s', pat, rep, p);
    var rest := s'[p..];
    assert pat <= rest by {
      assert rest[..|pat|] == s'[p..p + |pat|];
    }
    var tail := ReplaceAll(rest[|pat|..], pat, rep);
    assert ReplaceAll(rest, pat, rep) == rep + tail;
    var head := [s[0]] + s'[..p];
    AppendAssoc([s[0]], s'[..p], rep + tail);
    MiddleOfAppend(head, rep, tail);
    SafeCopyBlocksWindow(head + (rep + tail), rep, t, p + 1);
  }

  /** `ReplaceAll(s, pat, rep)` contains no `t` when `rep` can never take
      part in an occurrence of `t`, and either `t` is the pattern itself or
      `s` did not contain `t` to begin with. */
  lemma {:induction false} ReplaceAllNoResidual(s: string, pat: string, rep: string, t: string)
    requires |pat| > 0
    requires SafeReplacement(rep, t)
    requires t == pat || !Contains(s, t)
    ensures !Contains(ReplaceAll(s, pat, rep), t)
    decreases |s|
  {
    if |s| < |pat| {
      if t == pat {
        assert forall i: nat :: !OccursAt(s, t, i);
      }
    } else if pat <= s {
      if t != pat {
        NoContainsSuffix(s, t, |pat|);
      }
      ReplaceAllNoResidual(s[|pat|..], pat, rep, t);
      NoResidualAfterCopy(rep, ReplaceAll(s[|pat|..], pat, rep), t);
    } else {
      if t != pat {
        NoContainsSuffix(s, t, 1);
      }
      ReplaceAllNoResidual(s[1..], pat, rep, t);
      NoResidualAtHead(s, pat, rep, t);
      NoResidualAfterChar(s[0], ReplaceAll(s[1..], pat, rep), t);
    }
  }

  /** One step of a single-character replacement. */
  lemma ReplaceCharStep(s: string, a: char, b: char)
    requires |s| > 0
    ensures ReplaceAll(s, [a], [b]) == [if s[0] == a then b else s[0]] + ReplaceAll(s[1..], [a], [b])
  {
    assert [a] <= s <==> s[0] == a;
  }

  /** Replacing every `a` by a different character `b` leaves no `a`. */
  lemma {:induction false} ReplaceCharRemoves(s: string, a: char, b: char)
    requires a != b
    ensures a !in ReplaceAll(s, [a], [b])
    decreases |s|
  {
    if |s| > 0 {
      ReplaceCharStep(s, a, b);
      ReplaceCharRemoves(s[1..], a, b);
    }
  }

  /** Every `a` turned into `b`, character by character. */
  function MapChar(s: string, a: char, b: char): (r: string)
    ensures |r| == |s|
  {
    seq(|s|, i requires 0 <= i < |s| => if s[i] == a then b else s[i])
  }

  /** A single-character replacement is the character-wise map. */
  lemma {:induction false} ReplaceCharIsMap(s: string, a: char, b: char)
    ensures ReplaceAll(s, [a], [b]) == MapChar(s, a, b)
    decreases |s|
  {
    if |s| > 0 {
      ReplaceCharStep(s, a, b);
      ReplaceCharIsMap(s[1..], a, b);
      var m := MapChar(s, a, b);
      assert m == [m[0]] + MapChar(s[1..], a, b);
    }
  }

  /** A single-character replacement works piecewise. */
  lemma {:induction false} ReplaceCharConcat(x: string, y: string, a: char, b: char)
    ensures ReplaceAll(x + y, [a], [b]) == ReplaceAll(x, [a], [b]) + ReplaceAll(y, [a], [b])
  {
    ReplaceCharIsMap(x + y, a, b);
    ReplaceCharIsMap(x, a, b);
    ReplaceCharIsMap(y, a, b);
    MapCharConcat(x, y, a, b);
  }

  lemma MapCharConcat(x: string, y: string, a: char, b: char)
    ensures MapChar(x + y, a, b) == MapChar(x, a, b) + MapChar(y, a, b)
  {
  }

  /** Go's `strings.Split(s, string(c))`: the maximal runs of `s` between
      separators `c`, in order; never empty, and no part holds `c`. */
  function Split(s: string, c: char): (parts: seq<string>)
    ensures |parts| >= 1
    ensures forall k :: 0 <= k < |parts| ==> c !in parts[k]
    decreases |s|
  {
    if |s| == 0 then [""]
    else
      var rest := Split(s[1..], c);
      if s[0] == c then [""] + rest
      else [[s[0]] + rest[0]] + rest[1..]
  }

  /** Go's `strings.Join(parts, string(c))`. */
  function JoinWith(parts: seq<string>, c: char): string
    requires |parts| >= 1
  {
    if |parts| == 1 then parts[0] else parts[0] + [c] + JoinWith(parts[1..], c)
  }

  /** Three parts joined. */
  lemma JoinThree(x: string, y: string, z: string, c: char)
    ensures JoinWith([x, y, z], c) == x + [c] + y + [c] + z
  {
    var parts := [x, y, z];
    var tail := [y, z];
    assert parts[0] == x && parts[1..] == tail;
    assert tail[0] == y && tail[1..] == [z];
    assert JoinWith([z], c) == z;
    assert JoinWith(tail, c) == y + [c] + z;
    assert JoinWith(parts, c) == x + [c] + (y + [c] + z);
  }

  /** Joining the parts of a split gives back the original text. */
  lemma {:induction false} SplitThenJoin(s: string, c: char)
    ensures JoinWith(Split(s, c), c) == s
    decreases |s|
  {
    if |s| > 0 {
      var rest := Split(s[1..], c);
      SplitThenJoin(s[1..], c);
      if s[0] == c {
        assert Split(s, c)[1..] == rest;
      } else if |rest| == 1 {
        assert JoinWith(rest, c) == rest[0];
      } else {
        assert Split(s, c)[1..] == rest[1..];
        assert JoinWith(rest, c) == rest[0] + [c] + JoinWith(rest[1..], c);
      }
    }
  }

  /** Splitting distributes over a separator. */
  lemma {:induction false} SplitConcat(a: string, b: string, c: char)
    ensures Split(a + [c] + b, c) == Split(a, c) + Split(b, c)
    decreases |a|
  {
    var s := a + [c] + b;
    if |a| == 0 {
      EmptyAppend(a, [c]);
      ConsParts(c, b);
    } else {
      var a' := a[1..];
      HeadTail(a);
      AppendTail(a, [c]);
      AppendTail(a + [c], b);
      assert s[0] == a[0] && s[1..] == a' + [c] + b;
      SplitConcat(a', b, c);
      var ra := Split(a', c);
      var sb := Split(b, c);
      var r := Split(s[1..], c);
      if a[0] == c {
        AppendAssoc([""], ra, sb);
      } else {
        AppendTail(ra, sb);
        AppendAssoc([[a[0]] + ra[0]], ra[1..], sb);
      }
    }
  }

  /** Text without the separator is a single part. */
  lemma {:induction false} SplitNoSeparator(t: string, c: char)
    requires c !in t
    ensures Split(t, c) == [t]
    decreases |t|
  {
    if |t| > 0 {
      SplitNoSeparator(t[1..], c);
      assert [t[0]] + t[1..] == t;
    }
  }

  /** Splitting a join of separator-free parts gives back the parts. */
  lemma {:induction false} JoinThenSplit(parts: seq<string>, c: char)
    requires |parts| >= 1
    requires forall k :: 0 <= k < |parts| ==> c !in parts[k]
    ensures Split(JoinWith(parts, c), c) == parts
    decreases |parts|
  {
    SplitNoSeparator(parts[0], c);
    if |parts| > 1 {
      JoinThenSplit(parts[1..], c);
      SplitConcat(parts[0], JoinWith(parts[1..], c), c);
      assert [parts[0]] + parts[1..] == parts;
    }
  }

  /** Turning every `a` into `b` (which `s` does not use) turns the
      `a`-separated parts into the `b`-separated parts. */
  lemma {:induction false} SplitAfterReplaceChar(s: string, a: char, b: char)
    requires b !in s
    ensures Split(ReplaceAll(s, [a], [b]), b) == Split(s, a)
    decreases |s|
  {
    if |s| > 0 {
      var r := ReplaceAll(s, [a], [b]);
      ReplaceCharStep(s, a, b);
      SplitAfterReplaceChar(s[1..], a, b);
      assert r[1..] == ReplaceAll(s[1..], [a], [b]);
    } else {
      assert ReplaceAll(s, [a], [b]) == s;
    }
  }
}
