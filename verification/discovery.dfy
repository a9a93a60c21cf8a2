/**
 Discovery: the media files of the working directory, found by a fixed list
 of case-sensitive glob patterns `*<ext>`, de-duplicated and sorted in
 Python's string order. The directory is modelled as the finite set of its
 entry names.
 */
module Discovery {
  import opened Strings
  import Paths

  /** The extensions of the glob patterns, in the order they are tried. */
  const Extensions: seq<string> :=
    [".mp4", ".mp3", ".wav", ".m4a", ".flac", ".avi", ".mov", ".mkv", ".MP4", ".MP3", ".WAV"]

  /** The glob `*<ext>` matches `name` for one of the first `k` extensions. */
  predicate MatchesAmong(name: string, k: nat)
    requires k <= |Extensions|
  {
    exists j :: 0 <= j < k && EndsWith(name, Extensions[j])
  }

  /** `name` is picked up by one of the patterns. */
  predicate IsMedia(name: string) {
    MatchesAmong(name, |Extensions|)
  }

  /** Strictly increasing in Python's string order: sorted, with no duplicates. */
  predicate StrictlyIncreasing(s: seq<string>) {
    forall i, j :: 0 <= i < j < |s| ==> LexLess(s[i], s[j])
  }

  /** `Path('.').glob('*' + ext)`: the entries ending in `ext`. */
  method Glob(dir: set<string>, ext: string) returns (matches: seq<string>)
    ensures forall n :: n in matches <==> n in dir && EndsWith(n, ext)
  {
    matches := [];
    var pending := dir;
    while pending != {}
      invariant pending <= dir
      invariant forall n :: n in matches <==> n in dir - pending && EndsWith(n, ext)
      decreases pending
    {
      var n :| n in pending;
      if EndsWith(n, ext) {
        matches := matches + [n];
      }
      pending := pending - {n};
    }
  }

  /**
   The discovery step of `transcribe_files`: glob every pattern into one
   list, then `sorted(set(...))`. The result is strictly increasing and holds exactly
   the entries some pattern matches.
   */
  method Discover(dir: set<string>) returns (files: seq<string>)
    ensures StrictlyIncreasing(files)
    ensures forall n :: n in files <==> n in dir && IsMedia(n)
  {
    var found: seq<string> := [];
    for k := 0 to |Extensions|
      invariant forall n :: n in found <==> n in dir && MatchesAmong(n, k)
    {
      var matches := Glob(dir, Extensions[k]);
      found := found + matches;
    }
    files := SortNames(set n | n in found);
  }

  /** Inserts `x` at its place in a strictly increasing list. */
  function Insert(s: seq<string>, x: string): (r: seq<string>)
    requires StrictlyIncreasing(s) && x !in s
    ensures StrictlyIncreasing(r)
    ensures forall n :: n in r <==> n in s || n == x
    ensures |r| == |s| + 1
  {
    if s == [] then [x]
    else if Less(x, s[0]) then
      InsertFront(s, x);
      [x] + s
    else
      LexLessTotal(x, s[0]);
      var r := Insert(s[1..], x);
      InsertAfterHead(s, x, r);
      [s[0]] + r
  }

  lemma InsertFront(s: seq<string>, x: string)
    requires StrictlyIncreasing(s) && s != [] && LexLess(x, s[0])
    ensures StrictlyIncreasing([x] + s)
  {
    forall i, j | 0 <= i < j < |[x] + s| ensures LexLess(([x] + s)[i], ([x] + s)[j]) {
      if i == 0 && j > 1 {
        LexLessTransitive(x, s[0], s[j - 1]);
      }
    }
  }

  lemma InsertAfterHead(s: seq<string>, x: string, r: seq<string>)
    requires StrictlyIncreasing(s) && s != [] && LexLess(s[0], x)
    requires StrictlyIncreasing(r)
    requires forall n :: n in r <==> n in s[1..] || n == x
    ensures StrictlyIncreasing([s[0]] + r)
  {
    forall j | 0 <= j < |r| ensures LexLess(s[0], r[j]) {
      assert r[j] in r;
      if r[j] != x {
        var k :| 0 <= k < |s[1..]| && s[1..][k] == r[j];
        assert s[k + 1] == r[j];
      }
    }
    forall i, j | 0 <= i < j < |[s[0]] + r| ensures LexLess(([s[0]] + r)[i], ([s[0]] + r)[j]) {
      if i == 0 {
        assert ([s[0]] + r)[j] == r[j - 1];
      } else {
        assert ([s[0]] + r)[i] == r[i - 1] && ([s[0]] + r)[j] == r[j - 1];
      }
    }
  }

  /** `sorted(names)`: the names in strictly increasing order. */
  method SortNames(names: set<string>) returns (sorted: seq<string>)
    ensures StrictlyIncreasing(sorted)
    ensures forall n :: n in sorted <==> n in names
    ensures |sorted| == |names|
  {
    sorted := [];
    var pending := names;
    while pending != {}
      invariant pending <= names
      invariant StrictlyIncreasing(sorted)
      invariant forall n :: n in sorted <==> n in names - pending
      invariant |sorted| + |pending| == |names|
      decreases pending
    {
      var n :| n in pending;
      sorted := Insert(sorted, n);
      pending := pending - {n};
    }
  }

  /**
   Two strictly increasing lists with the same elements are the same list:
   the work list depends on the directory contents only, never on the order
   in which the directory is listed.
   */
  lemma {:induction false} SortedUnique(a: seq<string>, b: seq<string>)
    requires StrictlyIncreasing(a) && StrictlyIncreasing(b)
    requires forall n :: n in a <==> n in b
    ensures a == b
  {
    EmptyTogether(a, b);
    if a != [] {
      HeadNotAbove(a, b);
      HeadNotAbove(b, a);
      if a[0] != b[0] {
        LexLessTotal(a[0], b[0]);
      } else {
        forall n ensures n in a[1..] <==> n in b[1..] {
          if n in a[1..] {
            var i :| 1 <= i < |a| && a[i] == n;
            assert n != a[0] by { LexLessIrreflexive(a[0]); }
            assert n in b;
            var m :| 0 <= m < |b| && b[m] == n;
            assert b[1..][m - 1] == n;
          }
          if n in b[1..] {
            var i :| 1 <= i < |b| && b[i] == n;
            assert n != b[0] by { LexLessIrreflexive(b[0]); }
            assert n in a;
            var m :| 0 <= m < |a| && a[m] == n;
            assert a[1..][m - 1] == n;
          }
        }
        SortedUnique(a[1..], b[1..]);
        assert a == [a[0]] + a[1..] && b == [b[0]] + b[1..];
      }
    }
  }

  lemma EmptyTogether(a: seq<string>, b: seq<string>)
    requires forall n :: n in a <==> n in b
    ensures a == [] <==> b == []
  {
    if a != [] {
      assert a[0] in a;
    }
    if b != [] {
      assert b[0] in b;
    }
  }

  /** The head of a strictly increasing list is not above any element of a list with the same elements. */
  lemma HeadNotAbove(a: seq<string>, b: seq<string>)
    requires StrictlyIncreasing(a) && StrictlyIncreasing(b) && a != [] && b != []
    requires forall n :: n in a <==> n in b
    ensures !LexLess(a[0], b[0])
  {
    assert a[0] in a;
    var k :| 0 <= k < |b| && b[k] == a[0];
    LexLessIrreflexive(a[0]);
    if k > 0 {
      LexLessAsymmetric(b[0], a[0]);
    }
  }

  /** No pattern's extension ends another's, so each entry matches at most one pattern. */
  lemma PatternsExclusive(name: string, i: nat, j: nat)
    requires i < |Extensions| && j < |Extensions|
    requires EndsWith(name, Extensions[i]) && EndsWith(name, Extensions[j])
    ensures i == j
  {
    if i != j {
      if |Extensions[i]| <= |Extensions[j]| {
        SuffixOfSuffix(name, Extensions[i], Extensions[j]);
        NoExtensionEndsAnother(i, j);
      } else {
        SuffixOfSuffix(name, Extensions[j], Extensions[i]);
        NoExtensionEndsAnother(j, i);
      }
    }
  }

  lemma SuffixOfSuffix(name: string, a: string, b: string)
    requires EndsWith(name, a) && EndsWith(name, b) && |a| <= |b|
    ensures EndsWith(b, a)
  {
    assert b[|b| - |a|..] == name[|name| - |a|..];
  }

  lemma NoExtensionEndsAnother(i: nat, j: nat)
    requires i < |Extensions| && j < |Extensions| && i != j
    ensures !EndsWith(Extensions[j], Extensions[i])
  {
    var a, b := Extensions[i], Extensions[j];
    ExtensionShape(i);
    ExtensionShape(j);
    ExtensionsDistinct(i, j);
    if |a| < |b| {
      assert b[|b| - |a|] in b[1..] && b[|b| - |a|..][0] == b[|b| - |a|];
    } else if |a| == |b| {
      assert b[|b| - |a|..] == b;
    }
  }

  lemma ExtensionShape(j: nat)
    requires j < |Extensions|
    ensures |Extensions[j]| >= 2 && Extensions[j][0] == '.' && '.' !in Extensions[j][1..]
  {
  }

  lemma ExtensionsDistinct(i: nat, j: nat)
    requires i < |Extensions| && j < |Extensions| && i != j
    ensures Extensions[i] != Extensions[j]
  {
  }

  /** Matching is case-sensitive: `.MOV` and `.Mp4` are not picked up, `.MP4` is. */
  lemma CaseSensitiveExamples()
    ensures !IsMedia("clip.MOV")
    ensures !IsMedia("clip.Mp4")
    ensures IsMedia("clip.MP4")
  {
    assert EndsWith("clip.MP4", Extensions[8]);
  }

  /** A subtitle name never matches a pattern, so writing outputs never changes the work list. */
  lemma OutputNotMedia(name: string)
    ensures !IsMedia(Paths.OutputName(name))
  {
    var out := Paths.OutputName(name);
    assert out[|out| - 1] == 't';
    forall j | 0 <= j < |Extensions| ensures !EndsWith(out, Extensions[j]) {
      ExtensionsDoNotEndInT(j);
    }
  }

  lemma ExtensionsDoNotEndInT(j: nat)
    requires j < |Extensions|
    ensures Extensions[j][|Extensions[j]| - 1] != 't'
  {
  }
}
