/**
 The `.env` definitions-file loader `_load_env`: every line of the file is
 read as `KEY=VALUE` and merged into the process environment, never
 replacing a variable that is already set.

 The file is given as its sequence of lines (or None when it does not
 exist); the environment is an immutable map from names to values.
 */
module EnvFile {
  import opened Wrappers
  import opened Strings

  /** The characters Python's `str.strip()` removes when called without an argument (those for which `str.isspace()` holds). */
  const Whitespace: set<char> := {
    '\t', '\n', '\U{0B}', '\U{0C}', '\r',
    '\U{1C}', '\U{1D}', '\U{1E}', '\U{1F}', ' ',
    '\U{85}', '\U{A0}', '\U{1680}',
    '\U{2000}', '\U{2001}', '\U{2002}', '\U{2003}', '\U{2004}', '\U{2005}',
    '\U{2006}', '\U{2007}', '\U{2008}', '\U{2009}', '\U{200A}',
    '\U{2028}', '\U{2029}', '\U{202F}', '\U{205F}', '\U{3000}'
  }

  const DoubleQuote: set<char> := {'"'}
  const SingleQuote: set<char> := {'\''}

  /** One definition read from the file. */
  datatype Entry = Entry(key: string, value: string)

  /** What the loader does to the text right of the `=`: trim whitespace, then runs of `"`, then runs of `'`, and nothing more. */
  function CleanValue(v: string): (r: string)
    ensures |r| <= |v|
    ensures Bordered(r, SingleQuote)
    ensures Bordered(v, Whitespace) && Bordered(v, DoubleQuote) && Bordered(v, SingleQuote) ==> r == v
  {
    var t := Strip(Strip(v, Whitespace), DoubleQuote);
    StripIsBordered(t, SingleQuote);
    if Bordered(v, Whitespace) && Bordered(v, DoubleQuote) && Bordered(v, SingleQuote) then
      StripBordered(v, Whitespace);
      StripBordered(v, DoubleQuote);
      StripBordered(v, SingleQuote);
      Strip(t, SingleQuote)
    else
      Strip(t, SingleQuote)
  }

  /** A name the loader can produce: non-empty, trimmed, free of `=`, and not starting with `#`. */
  predicate ValidKey(k: string) {
    k != [] && k[0] != '#' && '=' !in k && Bordered(k, Whitespace)
  }

  /** `s` cut at position `i`: the key is the trimmed text before it, the value the cleaned text after it; None when that key is empty. */
  function SplitAt(s: string, i: nat): (r: Option<Entry>)
    requires i < |s|
    ensures r.Some? <==> Strip(s[..i], Whitespace) != []
    ensures r.Some? ==> r.value.key != [] && Bordered(r.value.key, Whitespace)
    ensures r.Some? ==> Bordered(r.value.value, SingleQuote)
    ensures r.Some? && '=' !in s[..i] ==> '=' !in r.value.key
  {
    var k := Strip(s[..i], Whitespace);
    if k == [] then None
    else
      StripIsBordered(s[..i], Whitespace);
      StripKeepsOthers(s[..i], Whitespace, '=');
      Some(Entry(k, CleanValue(s[i + 1..])))
  }

  /** A line after its whitespace trim: skipped when empty, a comment or without `=`, else split at its first `=`. */
  function ParseTrimmed(s: string): (r: Option<Entry>)
    ensures s == [] || s[0] == '#' || '=' !in s ==> r.None?
    ensures r.Some? && Bordered(s, Whitespace) ==> ValidKey(r.value.key)
    ensures r.Some? ==> Bordered(r.value.value, SingleQuote)
  {
    if s == [] || s[0] == '#' || '=' !in s then None
    else
      var i := IndexOf(s, '=');
      KeyStartsLine(s, i);
      SplitAt(s, i)
  }

  /** Cut before the first `=` of a trimmed line, a non-empty key begins with the line's first character. */
  lemma KeyStartsLine(s: string, i: nat)
    requires i < |s| && '=' !in s[..i]
    ensures Bordered(s, Whitespace) && SplitAt(s, i).Some? ==> SplitAt(s, i).value.key[0] == s[0]
  {
    if Bordered(s, Whitespace) && SplitAt(s, i).Some? {
      assert s[..i] != [];
      assert s[..i][0] == s[0];
      StripKeepsFirst(s[..i], Whitespace);
    }
  }

  /**
   One line of the file. Blank lines, comment lines (first non-blank
   character `#`) and lines without `=` give None; otherwise the trimmed
   line is split at its first `=`, the left part trimmed to the key and the
   right part cleaned to the value, and a line whose key is empty gives None.
   */
  function ParseLine(line: string): (r: Option<Entry>)
    ensures '=' !in line ==> r.None?
    ensures Strip(line, Whitespace) == [] || Strip(line, Whitespace)[0] == '#' ==> r.None?
    ensures r.Some? ==> ValidKey(r.value.key)
    ensures r.Some? ==> Bordered(r.value.value, SingleQuote)
    ensures r == ParseLineReference(line)
  {
    var s := Strip(line, Whitespace);
    StripIsBordered(line, Whitespace);
    StripKeepsOthers(line, Whitespace, '=');
    if '=' in line then
      SplitLineIsSplitTrimmed(line);
      KeyStartsLine(s, IndexOf(s, '='));
      ParseTrimmed(s)
    else
      ParseTrimmed(s)
  }

  /**
   An independent reading of one line, on the raw text: split at the first
   `=` of the line itself, and skip the line when the key is empty or starts
   with `#`.
   */
  function ParseLineReference(line: string): Option<Entry> {
    if '=' !in line then None
    else
      var e := SplitAt(line, IndexOf(line, '='));
      if e.Some? && e.value.key[0] == '#' then None else e
  }

  /** Blanks before the trimmed part of a line hold no `=`, so the first `=` of the line is that of its trimmed part, shifted. */
  lemma FirstEqualsShift(line: string, a: nat, s: string, i: nat)
    requires a <= |line| && AllIn(line[..a], Whitespace)
    requires a + |s| <= |line| && s == line[a..a + |s|] && i < |s| && s[i] == '=' && '=' !in s[..i]
    ensures '=' in line && IndexOf(line, '=') == a + i
  {
    assert forall m | 0 <= m < a :: line[..a][m] == line[m];
    assert forall m | a <= m < a + i :: s[..i][m - a] == line[m];
    assert line[a + i] == '=';
    var li := IndexOf(line, '=');
    assert forall m | 0 <= m < li :: line[..li][m] == line[m];
  }

  /** Two cuts whose left parts trim alike and whose right parts trim alike split alike. */
  lemma SplitAtAlike(x: string, i: nat, y: string, j: nat)
    requires i < |x| && j < |y|
    requires Strip(x[..i], Whitespace) == Strip(y[..j], Whitespace)
    requires Strip(x[i + 1..], Whitespace) == Strip(y[j + 1..], Whitespace)
    ensures SplitAt(x, i) == SplitAt(y, j)
  {
  }

  /** Splitting a line at its first `=` gives what splitting its trimmed part does. */
  lemma SplitAtShift(line: string, a: nat, b: nat, i: nat, n: nat)
    requires a <= b <= |line| && AllIn(line[..a], Whitespace) && AllIn(line[b..], Whitespace)
    requires i < b - a && n == a + i
    ensures SplitAt(line, n) == SplitAt(line[a..b], i)
  {
    var s := line[a..b];
    assert Strip(line[..n], Whitespace) == Strip(s[..i], Whitespace) by {
      assert line[..n] == line[..a] + s[..i];
      StripAfterPrefix(line[..a], s[..i], Whitespace);
    }
    assert Strip(line[n + 1..], Whitespace) == Strip(s[i + 1..], Whitespace) by {
      assert line[n + 1..] == s[i + 1..] + line[b..];
      StripBeforeSuffix(s[i + 1..], line[b..], Whitespace);
    }
    SplitAtAlike(line, n, s, i);
  }

  /** With the blanks around `s` in `line` cut at `a` and `b`, splitting `line` at its first `=` is splitting `s` at its first `=`. */
  lemma SplitAtTrimmedCut(line: string, s: string, a: nat, b: nat)
    requires StripAt(s, line, Whitespace, a, b) && '=' in s
    ensures '=' in line && SplitAt(line, IndexOf(line, '=')) == SplitAt(s, IndexOf(s, '='))
  {
    var i := IndexOf(s, '=');
    FirstEqualsShift(line, a, s, i);
    SplitAtShift(line, a, b, i, IndexOf(line, '='));
  }

  /** Splitting a line at its first `=` gives what splitting its trimmed part at that part's first `=` does. */
  lemma SplitLineIsSplitTrimmed(line: string)
    requires '=' in line
    ensures '=' in Strip(line, Whitespace)
    ensures SplitAt(line, IndexOf(line, '=')) == SplitAt(Strip(line, Whitespace), IndexOf(Strip(line, Whitespace), '='))
  {
    var s := Strip(line, Whitespace);
    StripSpec(line, Whitespace);
    var a, b :| StripAt(s, line, Whitespace, a, b);
    StripKeepsOthers(line, Whitespace, '=');
    SplitAtTrimmedCut(line, s, a, b);
  }

  /** The reference reading of a line, given the text before and after its first `=`. */
  lemma ReferenceAtFirstEquals(line: string, left: string, rest: string)
    requires line == left + "=" + rest && '=' !in left
    ensures ParseLineReference(line) ==
      var k := Strip(left, Whitespace);
      if k == [] || k[0] == '#' then None else Some(Entry(k, CleanValue(rest)))
  {
    assert line[..|left|] == left && line[|left|] == '=' && line[|left| + 1..] == rest;
    assert IndexOf(line, '=') == |left| by {
      FirstEqualsShift(line, 0, line, |left|);
    }
  }

  /** Text made of blanks holds no `=`. */
  lemma BlanksHoldNoEquals(p: string)
    requires AllIn(p, Whitespace)
    ensures '=' !in p
  {
    assert forall m | 0 <= m < |p| :: p[m] in Whitespace;
  }

  /**
   A definition line parses to its key and cleaned value: blanks around the
   key and around the `=` are dropped, and the value is everything after the
   first `=`, further `=` characters included.
   */
  lemma ParseDefinition(p1: string, k: string, p2: string, v: string)
    requires AllIn(p1, Whitespace) && AllIn(p2, Whitespace)
    requires ValidKey(k)
    ensures ParseLine(p1 + k + p2 + "=" + v) == Some(Entry(k, CleanValue(v)))
  {
    var line := p1 + k + p2 + "=" + v;
    var left := p1 + k + p2;
    assert '=' !in left by {
      BlanksHoldNoEquals(p1);
      BlanksHoldNoEquals(p2);
      assert left == p1 + k + p2;
    }
    assert Strip(left, Whitespace) == k by {
      StripUnwraps(p1, k, p2, Whitespace);
    }
    assert ParseLineReference(line) == Some(Entry(k, CleanValue(v))) by {
      ReferenceAtFirstEquals(line, left, v);
    }
  }

  /** A line whose text left of the first `=` is blank defines nothing. */
  lemma ParseEmptyKey(p: string, v: string)
    requires AllIn(p, Whitespace)
    ensures ParseLine(p + "=" + v) == None
  {
    var line := p + "=" + v;
    BlanksHoldNoEquals(p);
    assert Strip(p, Whitespace) == [] by {
      StripSpec(p, Whitespace);
      StripEmptyIff(Strip(p, Whitespace), p, Whitespace);
    }
    assert ParseLineReference(line) == None by {
      ReferenceAtFirstEquals(line, p, v);
    }
  }

  /** A key, an `=` and a text whose cleaning gives `v` parse to the entry `k` = `v`. */
  lemma ParseCleaned(k: string, w: string, v: string)
    requires ValidKey(k) && CleanValue(w) == v
    ensures ParseLine(k + "=" + w) == Some(Entry(k, v))
  {
    assert k + "=" + w == [] + k + [] + "=" + w;
    ParseDefinition([], k, [], w);
  }

  /** Cleaning removes one pair of double quotes and keeps what they enclose. */
  lemma CleanDoubleQuoted(v: string)
    requires Bordered(v, DoubleQuote) && Bordered(v, SingleQuote)
    ensures CleanValue("\"" + v + "\"") == v
  {
    var w := "\"" + v + "\"";
    StripBordered(w, Whitespace);
    StripUnwraps("\"", v, "\"", DoubleQuote);
    StripBordered(v, SingleQuote);
  }

  /** Cleaning removes one pair of single quotes and keeps what they enclose. */
  lemma CleanSingleQuoted(v: string)
    requires Bordered(v, SingleQuote)
    ensures CleanValue("'" + v + "'") == v
  {
    var w := "'" + v + "'";
    StripBordered(w, Whitespace);
    StripBordered(w, DoubleQuote);
    StripUnwraps("'", v, "'", SingleQuote);
  }

  /** A value with no blank or quote at its ends is left alone by cleaning. */
  lemma CleanFormatted(v: string)
    requires Bordered(v, Whitespace) && Bordered(v, DoubleQuote) && Bordered(v, SingleQuote)
    ensures CleanValue(v) == v
  {
    StripBordered(v, Whitespace);
    StripBordered(v, DoubleQuote);
    StripBordered(v, SingleQuote);
  }

  /**
   Double quotes around a value are removed, but what they enclose is kept as
   written, blanks and inner quotes included: there is no second trim.
   */
  lemma ParseDoubleQuoted(k: string, v: string)
    requires ValidKey(k)
    requires Bordered(v, DoubleQuote) && Bordered(v, SingleQuote)
    ensures ParseLine(k + "=\"" + v + "\"") == Some(Entry(k, v))
  {
    var w := "\"" + v + "\"";
    assert k + "=\"" + v + "\"" == k + "=" + w;
    CleanDoubleQuoted(v);
    ParseCleaned(k, w, v);
  }

  /** Single quotes are removed the same way, after double quotes. */
  lemma ParseSingleQuoted(k: string, v: string)
    requires ValidKey(k)
    requires Bordered(v, SingleQuote)
    ensures ParseLine(k + "='" + v + "'") == Some(Entry(k, v))
  {
    var w := "'" + v + "'";
    assert k + "='" + v + "'" == k + "=" + w;
    CleanSingleQuoted(v);
    ParseCleaned(k, w, v);
  }

  /** A value that already has no blank or quote at its ends comes back unchanged: writing `k=v` and reading it back is the identity. */
  lemma ParseFormatted(k: string, v: string)
    requires ValidKey(k)
    requires Bordered(v, Whitespace) && Bordered(v, DoubleQuote) && Bordered(v, SingleQuote)
    ensures ParseLine(k + "=" + v) == Some(Entry(k, v))
  {
    CleanFormatted(v);
    ParseCleaned(k, v, v);
  }

  /** The line `A=b=c` defines `A` as `b=c`. */
  lemma ParseSplitsAtFirstEquals()
    ensures ParseLine("A=b=c") == Some(Entry("A", "b=c"))
  {
    var k, v := "A", "b=c";
    assert k + "=" + v == "A=b=c";
    assert ValidKey(k);
    assert Bordered(v, Whitespace) && Bordered(v, DoubleQuote) && Bordered(v, SingleQuote);
    ParseFormatted(k, v);
  }

  /** Whether `line` defines the variable `k`. */
  predicate Defines(line: string, k: string) {
    ParseLine(line).Some? && ParseLine(line).value.key == k
  }

  /** The lines of the file, each parsed on its own. */
  function ParseAll(lines: seq<string>): (es: seq<Option<Entry>>)
    ensures |es| == |lines|
    ensures forall i | 0 <= i < |lines| :: es[i] == ParseLine(lines[i])
  {
    if lines == [] then [] else [ParseLine(lines[0])] + ParseAll(lines[1..])
  }

  /** Whether the parsed line `e` defines the variable `k`. */
  predicate EntryDefines(e: Option<Entry>, k: string) {
    e.Some? && e.value.key == k
  }

  /** One step of the loop: set the entry's variable unless it is already set. */
  function MergeEntry(env: map<string, string>, e: Option<Entry>): (r: map<string, string>)
    ensures env.Keys <= r.Keys && forall k | k in env :: r[k] == env[k]
    ensures e.Some? ==> e.value.key in r
    ensures forall k | k in r && k !in env :: EntryDefines(e, k) && r[k] == e.value.value
  {
    match e
    case None => env
    case Some(d) => if d.key in env then env else env[d.key := d.value]
  }

  /** The loop over the parsed lines: each merged in order into the environment. */
  function MergeAll(env: map<string, string>, es: seq<Option<Entry>>): (r: map<string, string>)
    ensures env.Keys <= r.Keys
    ensures forall k | k in env :: r[k] == env[k]
    decreases |es|
  {
    if es == [] then env
    else MergeAll(MergeEntry(env, es[0]), es[1..])
  }

  /** The loop of `_load_env` over the lines of an existing file. */
  function LoadEnv(env: map<string, string>, lines: seq<string>): (r: map<string, string>)
    ensures env.Keys <= r.Keys
    ensures forall k | k in env :: r[k] == env[k]
  {
    MergeAll(env, ParseAll(lines))
  }

  /** `_load_env` as a whole: a missing file leaves the environment as it is. */
  function LoadFile(env: map<string, string>, file: Option<seq<string>>): (r: map<string, string>)
    ensures file.None? ==> r == env
    ensures env.Keys <= r.Keys
    ensures forall k | k in env :: r[k] == env[k]
  {
    match file
    case None => env
    case Some(lines) => LoadEnv(env, lines)
  }

  lemma {:induction false} MergeFirstWins(env: map<string, string>, es: seq<Option<Entry>>, k: string, i: nat)
    requires k !in env
    requires i < |es| && EntryDefines(es[i], k)
    requires forall j | 0 <= j < i :: !EntryDefines(es[j], k)
    ensures k in MergeAll(env, es) && MergeAll(env, es)[k] == es[i].value.value
    decreases i
  {
    if i == 0 {
      assert MergeEntry(env, es[0]) == env[k := es[0].value.value];
    } else {
      assert !EntryDefines(es[0], k);
      assert forall j | 0 <= j < i - 1 :: es[1..][j] == es[j + 1];
      MergeFirstWins(MergeEntry(env, es[0]), es[1..], k, i - 1);
    }
  }

  lemma {:induction false} MergeUndefined(env: map<string, string>, es: seq<Option<Entry>>, k: string)
    requires k !in env
    requires forall j | 0 <= j < |es| :: !EntryDefines(es[j], k)
    ensures k !in MergeAll(env, es)
    decreases |es|
  {
    if es != [] {
      assert !EntryDefines(es[0], k);
      assert forall j | 0 <= j < |es| - 1 :: es[1..][j] == es[j + 1];
      MergeUndefined(MergeEntry(env, es[0]), es[1..], k);
    }
  }

  lemma {:induction false} MergeDefinedIsSet(env: map<string, string>, es: seq<Option<Entry>>, k: string, i: nat)
    requires i < |es| && EntryDefines(es[i], k)
    ensures k in MergeAll(env, es)
    decreases i
  {
    if i == 0 {
      assert k in MergeEntry(env, es[0]);
    } else {
      assert es[1..][i - 1] == es[i];
      MergeDefinedIsSet(MergeEntry(env, es[0]), es[1..], k, i - 1);
    }
  }

  lemma {:induction false} MergeSetIsNoop(env: map<string, string>, es: seq<Option<Entry>>)
    requires forall j, k | 0 <= j < |es| && EntryDefines(es[j], k) :: k in env
    ensures MergeAll(env, es) == env
    decreases |es|
  {
    if es != [] {
      assert MergeEntry(env, es[0]) == env;
      assert forall j | 0 <= j < |es| - 1 :: es[1..][j] == es[j + 1];
      MergeSetIsNoop(env, es[1..]);
    }
  }

  lemma {:induction false} MergeAppend(env: map<string, string>, a: seq<Option<Entry>>, b: seq<Option<Entry>>)
    ensures MergeAll(env, a + b) == MergeAll(MergeAll(env, a), b)
    decreases |a|
  {
    if a != [] {
      assert (a + b)[0] == a[0];
      assert (a + b)[1..] == a[1..] + b;
      MergeAppend(MergeEntry(env, a[0]), a[1..], b);
    } else {
      assert a + b == b;
    }
  }

  /** A variable that is not set beforehand takes the value of the FIRST line that defines it. */
  lemma FirstDefinitionWins(env: map<string, string>, lines: seq<string>, k: string, i: nat)
    requires k !in env
    requires i < |lines| && Defines(lines[i], k)
    requires forall j | 0 <= j < i :: !Defines(lines[j], k)
    ensures k in LoadEnv(env, lines)
    ensures LoadEnv(env, lines)[k] == ParseLine(lines[i]).value.value
  {
    MergeFirstWins(env, ParseAll(lines), k, i);
  }

  /** A variable that is not set beforehand and that no line defines stays unset. */
  lemma UndefinedStaysUnset(env: map<string, string>, lines: seq<string>, k: string)
    requires k !in env
    requires forall j | 0 <= j < |lines| :: !Defines(lines[j], k)
    ensures k !in LoadEnv(env, lines)
  {
    MergeUndefined(env, ParseAll(lines), k);
  }

  /** After loading, every variable some line defines is set. */
  lemma DefinedIsSet(env: map<string, string>, lines: seq<string>, k: string, i: nat)
    requires i < |lines| && Defines(lines[i], k)
    ensures k in LoadEnv(env, lines)
  {
    MergeDefinedIsSet(env, ParseAll(lines), k, i);
  }

  /** Loading the same file a second time (the script runs again on every interaction) changes nothing. */
  lemma LoadEnvIdempotent(env: map<string, string>, lines: seq<string>)
    ensures LoadEnv(LoadEnv(env, lines), lines) == LoadEnv(env, lines)
  {
    var r := LoadEnv(env, lines);
    var es := ParseAll(lines);
    forall j, k | 0 <= j < |es| && EntryDefines(es[j], k)
      ensures k in r
    {
      MergeDefinedIsSet(env, es, k, j);
    }
    MergeSetIsNoop(r, es);
  }

  /** Running `_load_env` again with the same file, present or not, changes nothing. */
  lemma LoadFileIdempotent(env: map<string, string>, file: Option<seq<string>>)
    ensures LoadFile(LoadFile(env, file), file) == LoadFile(env, file)
  {
    if file.Some? {
      LoadEnvIdempotent(env, file.value);
    }
  }

  /** Parsing a concatenation parses each block on its own. */
  lemma ParseAllAppend(a: seq<string>, b: seq<string>)
    ensures ParseAll(a + b) == ParseAll(a) + ParseAll(b)
  {
    var l := ParseAll(a + b);
    var r := ParseAll(a) + ParseAll(b);
    forall i | 0 <= i < |l|
      ensures l[i] == r[i]
    {
      if i < |a| { assert (a + b)[i] == a[i]; } else { assert (a + b)[i] == b[i - |a|]; }
    }
  }

  /** Loading two blocks of lines is loading the first, then the second. */
  lemma LoadEnvAppend(env: map<string, string>, a: seq<string>, b: seq<string>)
    ensures LoadEnv(env, a + b) == LoadEnv(LoadEnv(env, a), b)
  {
    ParseAllAppend(a, b);
    MergeAppend(env, ParseAll(a), ParseAll(b));
  }

  /** A blank line, a comment or any other line that defines nothing can be dropped without changing the result. */
  lemma SkippedLineIsNeutral(env: map<string, string>, a: seq<string>, line: string, b: seq<string>)
    requires ParseLine(line).None?
    ensures LoadEnv(env, a + [line] + b) == LoadEnv(env, a + b)
  {
    assert a + [line] + b == a + ([line] + b);
    LoadEnvAppend(env, a, [line] + b);
    LoadEnvAppend(env, a, b);
    LoadEnvAppend(LoadEnv(env, a), [line], b);
    assert LoadEnv(LoadEnv(env, a), [line]) == LoadEnv(env, a) by {
      assert ParseAll([line]) == [None];
      assert MergeAll(LoadEnv(env, a), [None]) == MergeAll(LoadEnv(env, a), []);
    }
  }
}
