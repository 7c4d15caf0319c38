/**
 The string primitives the loader and the error classifier rely on, stated
 the way Python defines them: `str.strip(chars)`, `c in s` for a single
 character and the first index of a character, and `p in s` for a substring.
 */
module Strings {

  /** Every character of `s` is one of `cs`. */
  predicate AllIn(s: string, cs: set<char>) {
    forall k | 0 <= k < |s| :: s[k] in cs
  }

  /** `s` is empty, or neither its first nor its last character is one of `cs`. */
  predicate Bordered(s: string, cs: set<char>) {
    s == [] || (s[0] !in cs && s[|s| - 1] !in cs)
  }

  /**
   `r` is `s` with its leading and trailing runs of characters from `cs`
   removed: a slice of `s` whose outside consists of `cs` characters only and
   whose two ends are not `cs` characters.
   */
  ghost predicate IsStripOf(r: string, s: string, cs: set<char>) {
    exists i, j :: StripAt(r, s, cs, i, j)
  }

  /** `r` is the strip of `s` obtained by cutting `s` at positions `i` and `j`. */
  ghost predicate StripAt(r: string, s: string, cs: set<char>, i: int, j: int) {
    && 0 <= i <= j <= |s|
    && s[i..j] == r
    && AllIn(s[..i], cs)
    && AllIn(s[j..], cs)
    && Bordered(r, cs)
  }

  /** The end of the run of `cs` characters that starts at position `i` of `s`. */
  function SkipFrom(s: string, cs: set<char>, i: nat): (n: nat)
    requires i <= |s|
    ensures i <= n <= |s|
    ensures forall k | i <= k < n :: s[k] in cs
    ensures n < |s| ==> s[n] !in cs
    decreases |s| - i
  {
    if i < |s| && s[i] in cs then SkipFrom(s, cs, i + 1) else i
  }

  /** The start of the run of `cs` characters that ends at position `j` of `s`, going back no further than `lo`. */
  function SkipBack(s: string, cs: set<char>, lo: nat, j: nat): (n: nat)
    requires lo <= j <= |s|
    ensures lo <= n <= j
    ensures forall k | n <= k < j :: s[k] in cs
    ensures lo < n ==> s[n - 1] !in cs
    decreases j - lo
  {
    if lo < j && s[j - 1] in cs then SkipBack(s, cs, lo, j - 1) else j
  }

  /** Python's `s.strip(chars)` with `chars` given as the set `cs`; StripSpec states what it computes. */
  function Strip(s: string, cs: set<char>): (r: string)
    ensures |r| <= |s|
  {
    var i := SkipFrom(s, cs, 0);
    s[i..SkipBack(s, cs, i, |s|)]
  }

  /** Strip removes exactly the leading and trailing runs of `cs` characters. */
  lemma StripSpec(s: string, cs: set<char>)
    ensures IsStripOf(Strip(s, cs), s, cs)
  {
    var i := SkipFrom(s, cs, 0);
    var j := SkipBack(s, cs, i, |s|);
    assert forall k | 0 <= k < i :: s[..i][k] == s[k];
    assert forall k | j <= k < |s| :: s[j..][k - j] == s[k];
    assert StripAt(s[i..j], s, cs, i, j);
  }

  /** Neither end of a strip is a `cs` character. */
  lemma StripIsBordered(s: string, cs: set<char>)
    ensures Bordered(Strip(s, cs), cs)
  {
    StripSpec(s, cs);
    var i, j :| StripAt(Strip(s, cs), s, cs, i, j);
  }

  /** A strip is empty exactly when every character of `s` is one of `cs`. */
  lemma StripEmptyIff(r: string, s: string, cs: set<char>)
    requires IsStripOf(r, s, cs)
    ensures r == [] <==> AllIn(s, cs)
  {
    var i, j :| StripAt(r, s, cs, i, j);
    if r == [] {
      forall k | 0 <= k < |s|
        ensures s[k] in cs
      {
        if k < i { assert s[..i][k] == s[k]; } else { assert s[j..][k - j] == s[k]; }
      }
    } else {
      assert s[i] == r[0];
    }
  }

  /** Two cut points that both follow a run of `cs` characters and sit on a character outside `cs` coincide. */
  lemma SameStart(s: string, cs: set<char>, i1: nat, i2: nat)
    requires i1 < |s| && i2 < |s|
    requires AllIn(s[..i1], cs) && AllIn(s[..i2], cs)
    requires s[i1] !in cs && s[i2] !in cs
    ensures i1 == i2
  {
    assert forall k | 0 <= k < i1 :: s[..i1][k] == s[k];
    assert forall k | 0 <= k < i2 :: s[..i2][k] == s[k];
  }

  /** Two cut points that both precede a run of `cs` characters and follow a character outside `cs` coincide. */
  lemma SameEnd(s: string, cs: set<char>, j1: nat, j2: nat)
    requires 0 < j1 <= |s| && 0 < j2 <= |s|
    requires AllIn(s[j1..], cs) && AllIn(s[j2..], cs)
    requires s[j1 - 1] !in cs && s[j2 - 1] !in cs
    ensures j1 == j2
  {
    assert forall k | j1 <= k < |s| :: s[j1..][k - j1] == s[k];
    assert forall k | j2 <= k < |s| :: s[j2..][k - j2] == s[k];
  }

  /** There is only one way to strip a string: any two strips of `s` agree. */
  lemma StripUnique(s: string, cs: set<char>, r1: string, r2: string)
    requires IsStripOf(r1, s, cs) && IsStripOf(r2, s, cs)
    ensures r1 == r2
  {
    StripEmptyIff(r1, s, cs);
    StripEmptyIff(r2, s, cs);
    if r1 != [] && r2 != [] {
      var i1, j1 :| StripAt(r1, s, cs, i1, j1);
      var i2, j2 :| StripAt(r2, s, cs, i2, j2);
      assert s[i1] == r1[0] && s[j1 - 1] == r1[|r1| - 1];
      assert s[i2] == r2[0] && s[j2 - 1] == r2[|r2| - 1];
      SameStart(s, cs, i1, i2);
      SameEnd(s, cs, j1, j2);
    }
  }

  /** A string whose ends are not in `cs` is left alone by stripping. */
  lemma StripBordered(s: string, cs: set<char>)
    requires Bordered(s, cs)
    ensures Strip(s, cs) == s
  {
    assert s[0..|s|] == s && s[..0] == [] && s[|s|..] == [];
    assert StripAt(s, s, cs, 0, |s|);
    StripSpec(s, cs);
    StripUnique(s, cs, s, Strip(s, cs));
  }

  /** Stripping twice is stripping once. */
  lemma StripIdempotent(s: string, cs: set<char>)
    ensures Strip(Strip(s, cs), cs) == Strip(s, cs)
  {
    var r := Strip(s, cs);
    StripSpec(s, cs);
    var i, j :| StripAt(r, s, cs, i, j);
    StripBordered(r, cs);
  }

  /** A leading run of `cs` characters does not change the strip. */
  lemma StripAfterPrefix(p: string, x: string, cs: set<char>)
    requires AllIn(p, cs)
    ensures Strip(p + x, cs) == Strip(x, cs)
  {
    var r := Strip(x, cs);
    StripSpec(x, cs);
    var i, j :| StripAt(r, x, cs, i, j);
    var s := p + x;
    assert s[|p| + i..|p| + j] == r;
    var m := |p| + i;
    var pre := s[..m];
    forall k | 0 <= k < m
      ensures pre[k] in cs
    {
      if k < |p| { assert s[k] == p[k]; } else { assert s[k] == x[..i][k - |p|]; }
    }
    assert s[|p| + j..] == x[j..];
    assert StripAt(r, s, cs, m, |p| + j);
    StripSpec(s, cs);
    StripUnique(s, cs, r, Strip(s, cs));
  }

  /** A trailing run of `cs` characters does not change the strip. */
  lemma StripBeforeSuffix(x: string, q: string, cs: set<char>)
    requires AllIn(q, cs)
    ensures Strip(x + q, cs) == Strip(x, cs)
  {
    var r := Strip(x, cs);
    StripSpec(x, cs);
    var i, j :| StripAt(r, x, cs, i, j);
    var s := x + q;
    assert s[i..j] == r;
    assert s[..i] == x[..i];
    forall k | 0 <= k < |s| - j
      ensures s[j..][k] in cs
    {
      if j + k < |x| { assert s[j..][k] == x[j..][k]; } else { assert s[j..][k] == q[j + k - |x|]; }
    }
    assert StripAt(r, s, cs, i, j);
    StripSpec(s, cs);
    StripUnique(s, cs, r, Strip(s, cs));
  }

  /** Wrapping `x` in runs of `cs` characters and stripping gives back `x` itself when its ends are not in `cs`. */
  lemma StripUnwraps(p: string, x: string, q: string, cs: set<char>)
    requires AllIn(p, cs) && AllIn(q, cs) && Bordered(x, cs)
    ensures Strip(p + x + q, cs) == x
  {
    assert p + x + q == p + (x + q);
    StripAfterPrefix(p, x + q, cs);
    StripBeforeSuffix(x, q, cs);
    StripBordered(x, cs);
  }

  /** Stripping keeps the first character of `s` when that character is not in `cs`. */
  lemma StripKeepsFirst(s: string, cs: set<char>)
    requires s != [] && s[0] !in cs
    ensures Strip(s, cs) != [] && Strip(s, cs)[0] == s[0]
  {
    var r := Strip(s, cs);
    StripSpec(s, cs);
    var i, j :| StripAt(r, s, cs, i, j);
    StripEmptyIff(r, s, cs);
    assert i == 0;
  }

  /** Stripping removes only `cs` characters, so a character outside `cs` occurs in the strip exactly when it occurs in `s`. */
  lemma StripKeepsOthers(s: string, cs: set<char>, c: char)
    requires c !in cs
    ensures c in Strip(s, cs) <==> c in s
  {
    var r := Strip(s, cs);
    StripSpec(s, cs);
    var i, j :| StripAt(r, s, cs, i, j);
    if c in s {
      var k :| 0 <= k < |s| && s[k] == c;
      assert forall m | 0 <= m < i :: s[..i][m] == s[m];
      assert forall m | j <= m < |s| :: s[j..][m - j] == s[m];
      assert i <= k < j;
      assert r[k - i] == c;
    }
  }

  /** The first position at or after `i` where `c` occurs in `s`. */
  function FindFrom(s: string, c: char, i: nat): (n: nat)
    requires i <= |s| && c in s[i..]
    ensures i <= n < |s| && s[n] == c
    ensures forall k | i <= k < n :: s[k] != c
    decreases |s| - i
  {
    if s[i] == c then i
    else
      assert s[i..] == [s[i]] + s[i + 1..];
      FindFrom(s, c, i + 1)
  }

  /** The index of the first occurrence of `c` in `s` (Python's `s.index(c)`). */
  function IndexOf(s: string, c: char): (i: nat)
    requires c in s
    ensures i < |s| && s[i] == c
    ensures c !in s[..i]
  {
    assert s[0..] == s;
    var i := FindFrom(s, c, 0);
    assert forall k | 0 <= k < i :: s[..i][k] == s[k];
    i
  }

  /** `p` occurs in `s` at position `i`. */
  ghost predicate OccursAt(s: string, p: string, i: int) {
    0 <= i && i + |p| <= |s| && s[i..i + |p|] == p
  }

  /** Python's `p in s` on strings: is `p` a substring of `s`? (The empty string is a substring of every string.) */
  function Contains(s: string, p: string): (b: bool)
    ensures b <==> exists i :: OccursAt(s, p, i)
    decreases |s|
  {
    if |s| < |p| then
      assert forall i :: !OccursAt(s, p, i);
      false
    else if s[..|p|] == p then
      assert OccursAt(s, p, 0);
      true
    else
      var b := Contains(s[1..], p);
      assert forall i :: OccursAt(s[1..], p, i) <==> OccursAt(s, p, i + 1);
      assert !OccursAt(s, p, 0);
      assert b ==> exists i :: OccursAt(s, p, i) by {
        if b { var i :| OccursAt(s[1..], p, i); assert OccursAt(s, p, i + 1); }
      }
      assert (exists i :: OccursAt(s, p, i)) ==> b by {
        if exists i :: OccursAt(s, p, i) {
          var i :| OccursAt(s, p, i);
          assert i != 0;
          assert OccursAt(s[1..], p, i - 1);
        }
      }
      b
  }

  /** A string contains every string it is built around. */
  lemma ContainsMiddle(a: string, p: string, b: string)
    ensures Contains(a + p + b, p)
  {
    assert OccursAt(a + p + b, p, |a|) by {
      assert (a + p + b)[|a|..|a| + |p|] == p;
    }
  }

  /** A string whose characters do not include the first character of `p` cannot contain `p`. */
  lemma MissingFirstNotContained(s: string, p: string)
    requires p != [] && p[0] !in s
    ensures !Contains(s, p)
  {
    forall i | 0 <= i && i + |p| <= |s|
      ensures !OccursAt(s, p, i)
    {
      assert s[i..i + |p|][0] == s[i];
    }
  }

  /** An occurrence of `p` in `s` is one in `a + s`, shifted by `|a|`. */
  lemma OccursAfterPrefix(a: string, s: string, p: string, i: int)
    requires OccursAt(s, p, i)
    ensures OccursAt(a + s, p, |a| + i)
  {
    assert (a + s)[|a| + i..|a| + i + |p|] == s[i..i + |p|];
  }

  /** An occurrence of `p` in `a + s` lies within `s` when `a` lacks the first character of `p`. */
  lemma OccursPastPrefix(a: string, s: string, p: string, i: int)
    requires p != [] && p[0] !in a && OccursAt(a + s, p, i)
    ensures i >= |a| && OccursAt(s, p, i - |a|)
  {
    assert (a + s)[i..i + |p|][0] == (a + s)[i];
    assert forall j | 0 <= j < |a| :: (a + s)[j] == a[j];
    assert i >= |a|;
    assert (a + s)[i..i + |p|] == s[i - |a|..i - |a| + |p|];
  }

  /** Text put in front of `s` adds no occurrence of `p` when it lacks the first character of `p`. */
  lemma ContainsAfterPrefix(a: string, s: string, p: string)
    requires p != [] && p[0] !in a
    ensures Contains(a + s, p) <==> Contains(s, p)
  {
    if Contains(s, p) {
      var i :| OccursAt(s, p, i);
      OccursAfterPrefix(a, s, p, i);
    }
    if Contains(a + s, p) {
      var i :| OccursAt(a + s, p, i);
      OccursPastPrefix(a, s, p, i);
    }
  }
}
