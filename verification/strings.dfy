/**
 The string operations the pipeline relies on: Python's `str.strip()`,
 splitting at the first line break or blank line, suffix matching as a glob
 `*<suffix>` does it, and Python's code-point ordering of strings.
 */
module Strings {
  import opened Wrappers

  /** Python's `str.isspace()` for one character. */
  predicate IsSpace(c: char) {
    || '\t' <= c <= '\r'
    || '\U{1c}' <= c <= ' '
    || c == '\U{85}' || c == '\U{a0}' || c == '\U{1680}'
    || '\U{2000}' <= c <= '\U{200a}'
    || c == '\U{2028}' || c == '\U{2029}' || c == '\U{202f}' || c == '\U{205f}' || c == '\U{3000}'
  }

  /** `str.lstrip()`: `s` without its leading white space. */
  function TrimLeft(s: string): string {
    if s != [] && IsSpace(s[0]) then TrimLeft(s[1..]) else s
  }

  /** What is left is a suffix of `s` that does not start with white space; everything cut is white space. */
  lemma {:induction false} TrimLeftSpec(s: string)
    ensures var r := TrimLeft(s);
      && |r| <= |s| && r == s[|s| - |r|..]
      && (r == [] || !IsSpace(r[0]))
      && forall i :: 0 <= i < |s| - |r| ==> IsSpace(s[i])
  {
    if s != [] && IsSpace(s[0]) {
      TrimLeftSpec(s[1..]);
    }
  }

  /** `str.rstrip()`: `s` without its trailing white space. */
  function TrimRight(s: string): string {
    if s != [] && IsSpace(s[|s| - 1]) then TrimRight(s[..|s| - 1]) else s
  }

  /** What is left is a prefix of `s` that does not end with white space; everything cut is white space. */
  lemma {:induction false} TrimRightSpec(s: string)
    ensures var r := TrimRight(s);
      && |r| <= |s| && r == s[..|r|]
      && (r == [] || !IsSpace(r[|r| - 1]))
      && forall i :: |r| <= i < |s| ==> IsSpace(s[i])
  {
    if s != [] && IsSpace(s[|s| - 1]) {
      TrimRightSpec(s[..|s| - 1]);
    }
  }

  /** The number of white-space characters at the front of `s`. */
  function LeadingSpaces(s: string): (n: nat)
    ensures n <= |s|
    ensures forall k :: 0 <= k < n ==> IsSpace(s[k])
    ensures n == |s| || !IsSpace(s[n])
  {
    TrimLeftSpec(s);
    |s| - |TrimLeft(s)|
  }

  /** `str.strip()`: `s` without its leading and trailing white space. */
  function Strip(s: string): string {
    TrimRight(TrimLeft(s))
  }

  /**
   The stripped string is the longest slice of `s` that neither starts nor
   ends with white space: everything cut away on either side is white space.
   */
  lemma StripSpec(s: string)
    ensures var r := Strip(s);
      && LeadingSpaces(s) + |r| <= |s|
      && r == s[LeadingSpaces(s)..LeadingSpaces(s) + |r|]
      && (forall k :: LeadingSpaces(s) + |r| <= k < |s| ==> IsSpace(s[k]))
      && (r == [] || (!IsSpace(r[0]) && !IsSpace(r[|r| - 1])))
  {
    var l := TrimLeft(s);
    TrimLeftSpec(s);
    TrimRightSpec(l);
    var r := TrimRight(l);
    forall k | LeadingSpaces(s) + |r| <= k < |s| ensures IsSpace(s[k]) {
      assert s[k] == l[k - LeadingSpaces(s)];
    }
  }

  /** Stripping an already stripped string changes nothing. */
  lemma StripIdempotent(s: string)
    ensures Strip(Strip(s)) == Strip(s)
  {
    var r := Strip(s);
    StripSpec(s);
    if r != [] {
      assert TrimLeft(r) == r;
      assert TrimRight(r) == r;
    }
  }

  /** A stripped string is empty or ends in a non-space, so never in a line break. */
  lemma StripLastNotNewline(s: string)
    ensures Strip(s) == [] || Strip(s)[|Strip(s)| - 1] != '\n'
  {
    StripSpec(s);
  }

  /** Cuts `s` at the first occurrence of `c`: the part before it and the part after it. */
  function SplitAt(s: string, c: char): (r: Option<(string, string)>)
    ensures r.None? <==> c !in s
    ensures r.Some? ==> s == r.value.0 + [c] + r.value.1 && c !in r.value.0
  {
    if s == [] then None
    else if s[0] == c then Some(([], s[1..]))
    else match SplitAt(s[1..], c)
      case None => None
      case Some((a, b)) => Some(([s[0]] + a, b))
  }

  /** Cutting `a + [c] + b` at `c` gives back `a` and `b` when `a` holds no `c`. */
  lemma {:induction false} SplitAtConcat(a: string, c: char, b: string)
    requires c !in a
    ensures SplitAt(a + [c] + b, c) == Some((a, b))
  {
    var s := a + [c] + b;
    if a == [] {
      assert s[1..] == b;
    } else {
      assert s[0] == a[0];
      assert s[1..] == a[1..] + [c] + b;
      SplitAtConcat(a[1..], c, b);
      assert [a[0]] + a[1..] == a;
    }
  }

  /** No two consecutive line breaks: the text holds no blank line. */
  predicate NoBlankLine(s: string) {
    forall i :: 0 <= i < |s| - 1 ==> !(s[i] == '\n' && s[i + 1] == '\n')
  }

  /** Cuts `s` at the first `"\n\n"`: the text before it and everything after it. */
  function SplitAtBlankLine(s: string): (r: Option<(string, string)>)
    ensures r.Some? ==> s == r.value.0 + "\n\n" + r.value.1
    ensures r.Some? ==> NoBlankLine(r.value.0)
    ensures r.None? ==> NoBlankLine(s)
  {
    if |s| < 2 then None
    else if s[0] == '\n' && s[1] == '\n' then Some(([], s[2..]))
    else match SplitAtBlankLine(s[1..])
      case None => None
      case Some((a, b)) => Some(([s[0]] + a, b))
  }

  /**
   A text without a blank line that does not end in a line break is found
   again in front of the blank line that closes it.
   */
  lemma {:induction false} SplitAtBlankLineConcat(t: string, rest: string)
    requires NoBlankLine(t)
    requires t == [] || t[|t| - 1] != '\n'
    ensures SplitAtBlankLine(t + "\n\n" + rest) == Some((t, rest))
  {
    var s := t + "\n\n" + rest;
    if t == [] {
      assert s == "\n\n" + rest;
      assert s[2..] == rest;
    } else {
      assert s[0] == t[0];
      if |t| == 1 {
        assert s[1] == '\n';
      } else {
        assert s[1] == t[1];
      }
      assert s[1..] == t[1..] + "\n\n" + rest;
      SplitAtBlankLineConcat(t[1..], rest);
      assert [t[0]] + t[1..] == t;
    }
  }

  /** `s` ends with `suffix`: the glob `*<suffix>` matches `s`. */
  predicate EndsWith(s: string, suffix: string) {
    |suffix| <= |s| && s[|s| - |suffix|..] == suffix
  }

  /** Python's `<` on strings: code-point lexicographic order. */
  predicate LexLess(a: string, b: string) {
    exists k :: 0 <= k <= |a| && k < |b| && a[..k] == b[..k]
      && (k == |a| || a[k] < b[k])
  }

  /** A decidable form of `LexLess`, walking both strings from the front. */
  function Less(a: string, b: string): (r: bool)
    ensures r <==> LexLess(a, b)
  {
    if b == [] then false
    else if a == [] then (assert a[..0] == b[..0]; true)
    else if a[0] != b[0] then (assert a[..0] == b[..0]; a[0] < b[0])
    else
      var r := Less(a[1..], b[1..]);
      if r then
        var k :| 0 <= k <= |a[1..]| && k < |b[1..]| && a[1..][..k] == b[1..][..k]
          && (k == |a[1..]| || a[1..][k] < b[1..][k]);
        assert a[..k + 1] == [a[0]] + a[1..][..k];
        assert b[..k + 1] == [b[0]] + b[1..][..k];
        r
      else
        LexLessTail(a, b);
        r
  }

  /** Dropping a common first character keeps the order. */
  lemma LexLessTail(a: string, b: string)
    requires a != [] && b != [] && a[0] == b[0]
    ensures LexLess(a, b) ==> LexLess(a[1..], b[1..])
  {
    if LexLess(a, b) {
      LexLessTailStep(a, b);
    }
  }

  lemma LexLessTailStep(a: string, b: string)
    requires a != [] && b != [] && a[0] == b[0]
    requires LexLess(a, b)
    ensures LexLess(a[1..], b[1..])
  {
    var k :| 0 <= k <= |a| && k < |b| && a[..k] == b[..k] && (k == |a| || a[k] < b[k]);
    assert k > 0;
    assert a[1..][..k - 1] == a[..k][1..];
    assert b[1..][..k - 1] == b[..k][1..];
  }

  lemma LexLessIrreflexive(a: string)
    ensures !LexLess(a, a)
  {
  }

  lemma {:induction false} LexLessTransitive(a: string, b: string, c: string)
    requires LexLess(a, b) && LexLess(b, c)
    ensures LexLess(a, c)
  {
    var i :| 0 <= i <= |a| && i < |b| && a[..i] == b[..i] && (i == |a| || a[i] < b[i]);
    var j :| 0 <= j <= |b| && j < |c| && b[..j] == c[..j] && (j == |b| || b[j] < c[j]);
    var k := if i < j then i else j;
    assert a[..k] == c[..k] by {
      assert a[..k] == b[..i][..k];
      assert c[..k] == b[..j][..k];
    }
    if i < j {
      assert b[i] == c[i] by { assert b[..j][i] == c[..j][i]; }
    } else if j < i {
      assert a[j] == b[j] by { assert a[..i][j] == b[..i][j]; }
    }
  }

  lemma LexLessAsymmetric(a: string, b: string)
    ensures !(LexLess(a, b) && LexLess(b, a))
  {
    if LexLess(a, b) && LexLess(b, a) {
      LexLessTransitive(a, b, a);
    }
  }

  /** Any two distinct strings are ordered one way or the other. */
  lemma {:induction false} LexLessTotal(a: string, b: string)
    requires a != b
    ensures LexLess(a, b) || LexLess(b, a)
  {
    if a == [] || b == [] {
      assert a[..0] == b[..0];
    } else if a[0] != b[0] {
      assert a[..0] == b[..0];
    } else {
      assert a[1..] != b[1..] by {
        assert a == [a[0]] + a[1..];
        assert b == [b[0]] + b[1..];
      }
      LexLessTotal(a[1..], b[1..]);
      assert Less(a[1..], b[1..]) || Less(b[1..], a[1..]);
      assert Less(a, b) || Less(b, a);
    }
  }
}
