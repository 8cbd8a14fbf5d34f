/**
  * The three skip checks that run before any rewriting (phpdocs/doxygen-filter.php,
  * lines 33-59). The first check that matches decides: the filter then prints nothing
  * and reports `<path>:0: notice: <reason>` on the diagnostic channel.
  */
module Gatekeeper {
  import opened Wrappers
  import opened Text
  import Scan

  /** Why a file is skipped, one reason per check, in the order they run. */
  datatype Reason = LangFile | CliScript | FrontEndScript

  /** The reason as the notice words it. */
  function ReasonText(r: Reason): string {
    match r
    case LangFile => "skipping lang file. Not suitable for APIs"
    case CliScript => "skipping CLI_SCRIPT. Not suitable for APIs"
    case FrontEndScript => "skipping front-end script. Not suitable for APIs"
  }

  /** The notice line written to the error log for a skipped file. */
  function Notice(path: string, r: Reason): string {
    path + ":0: notice: " + ReasonText(r)
  }

  // ---------------------------------------------------------------------------
  // Line 33: `#/lang/[a-z_]*/#` on the path.

  /** A character of a locale directory name: `[a-z_]`. */
  predicate IsLocaleChar(c: char) { 'a' <= c <= 'z' || c == '_' }

  /**
    * The pattern matches at the start of `t`. The greedy run of locale characters can
    * only be followed by `/` at its end, because `/` is not a locale character.
    */
  predicate LangAt(t: string) {
    StartsWith(t, "/lang/") && var e := SpanEnd(t, 6, IsLocaleChar); e < |t| && t[e] == '/'
  }

  // preg_match('#/lang/[a-z_]*/#', path) !== 0.
  function IsLangPath(path: string): bool {
    Scan.Anywhere(LangAt, path)
  }

  /** "/lang/" at `i`, locale characters after it up to `j`, and "/" at `j`. */
  ghost predicate LangMatch(p: string, i: int, j: int) {
    0 <= i && i + 6 <= j < |p| && p[i..i + 6] == "/lang/" &&
    (forall k :: i + 6 <= k < j ==> IsLocaleChar(p[k])) && p[j] == '/'
  }

  /** The path check holds exactly when the path has a `/lang/<locale>/` segment. */
  lemma LangPathSpec(p: string)
    ensures IsLangPath(p) <==> exists i, j :: LangMatch(p, i, j)
  {
    if IsLangPath(p) {
      var i :| 0 <= i <= |p| && LangAt(p[i..]);
      var t := p[i..];
      var e := SpanEnd(t, 6, IsLocaleChar);
      assert p[i..i + 6] == t[..6];
      assert forall k :: i + 6 <= k < i + e ==> p[k] == t[k - i];
      assert LangMatch(p, i, i + e);
    }
    if exists i, j :: LangMatch(p, i, j) {
      var i, j :| LangMatch(p, i, j);
      var t := p[i..];
      assert t[..6] == p[i..i + 6];
      assert forall k :: 6 <= k < j - i ==> t[k] == p[k + i];
      SpanEndIs(t, 6, j - i, IsLocaleChar);
      assert LangAt(t);
    }
  }

  // ---------------------------------------------------------------------------
  // Line 43: `#define.*?CLI_SCRIPT.*?true#` on the text, `.` not matching a line feed.

  /**
    * The pattern matches at the start of `t`: the lazy searches take the first
    * "CLI_SCRIPT" on the line after "define" and then the first "true" after it.
    */
  predicate CliAt(t: string) {
    StartsWith(t, "define") &&
    match FindOnLine(t, "CLI_SCRIPT", 6)
    case None => false
    case Some(j) => FindOnLine(t, "true", j + 10).Some?
  }

  /** `preg_match('#define.*?CLI_SCRIPT.*?true#', source) !== 0`. */
  function DefinesCliScript(source: string): bool {
    Scan.Anywhere(CliAt, source)
  }

  /** "define" at `i`, "CLI_SCRIPT" at `j` and "true" at `k`, with no line feed between them. */
  ghost predicate CliMatch(s: string, i: int, j: int, k: int) {
    0 <= i && i + 6 <= j && j + 10 <= k && k <= |s| &&
    StartsWith(s[i..], "define") && StartsWith(s[j..], "CLI_SCRIPT") && StartsWith(s[k..], "true") &&
    NoNewline(s, i + 6, j) && NoNewline(s, j + 10, k)
  }

  /** Taking the first candidate of each lazy search loses no match. */
  lemma CliScriptSpec(s: string)
    ensures DefinesCliScript(s) <==> exists i, j, k :: CliMatch(s, i, j, k)
  {
    if DefinesCliScript(s) {
      var i :| 0 <= i <= |s| && CliAt(s[i..]);
      CliAtMatches(s, i);
    }
    if exists i, j, k :: CliMatch(s, i, j, k) {
      var i, j, k :| CliMatch(s, i, j, k);
      CliMatchFound(s, i, j, k);
    }
  }

  /** A match found by the scanner at `i` is a match of the pattern. */
  lemma CliAtMatches(s: string, i: nat)
    requires i <= |s| && CliAt(s[i..])
    ensures exists j, k :: CliMatch(s, i, j, k)
  {
    var t := s[i..];
    var j := FindOnLine(t, "CLI_SCRIPT", 6).value;
    var k := FindOnLine(t, "true", j + 10).value;
    assert t[j..] == s[i + j..] && t[k..] == s[i + k..];
    NoNewlineShift(s, i, 6, j);
    NoNewlineShift(s, i, j + 10, k);
    assert CliMatch(s, i, i + j, i + k);
  }

  /** A match of the pattern starting at `i` is found by the scanner at `i`. */
  lemma CliMatchFound(s: string, i: int, j: int, k: int)
    requires CliMatch(s, i, j, k)
    ensures CliAt(s[i..])
  {
    var t := s[i..];
    var j0, k0 := j - i, k - i;
    assert t[j0..] == s[j..] && t[k0..] == s[k..];
    NoNewlineShift(s, i, 6, j0);
    NoNewlineShift(s, i, j0 + 10, k0);
    var j1 := FindOnLine(t, "CLI_SCRIPT", 6).value;
    assert NoNewline(t, j1 + 10, k0) by {
      forall x | j1 + 10 <= x < k0 && x < |t|
        ensures t[x] != '\n'
      {
        if j0 <= x < j0 + 10 {
          assert t[x] == t[j0..][..10][x - j0];
        }
      }
    }
    assert FindOnLine(t, "true", j1 + 10).Some?;
  }

  /** Line-feed freedom of a stretch does not depend on where the text is cut. */
  lemma NoNewlineShift(s: string, i: nat, a: nat, b: nat)
    requires i <= |s|
    ensures NoNewline(s[i..], a, b) <==> NoNewline(s, i + a, i + b)
  {
    if NoNewline(s[i..], a, b) {
      forall x | i + a <= x < i + b && x < |s| ensures s[x] != '\n' {
        assert s[x] == s[i..][x - i];
      }
    }
    if NoNewline(s, i + a, i + b) {
      forall x | a <= x < b && x < |s[i..]| ensures s[i..][x] != '\n' {
        assert s[i..][x] == s[x + i];
      }
    }
  }

  // ---------------------------------------------------------------------------
  // Line 53: `#\n *require(_once)?.*?config\.php#` on the text.

  /** Line 53 allows only spaces, not tabs, between the line feed and `require`. */
  predicate IsBlank(c: char) { c == ' ' }

  /**
    * The pattern matches at the start of `t`. The optional "_once" makes no difference
    * to whether it matches: the lazy search after "require" would step over it anyway.
    */
  predicate ConfigAt(t: string) {
    |t| > 0 && t[0] == '\n' &&
    var e := SpanEnd(t, 1, IsBlank);
    StartsWith(t[e..], "require") && FindOnLine(t, "config.php", e + 7).Some?
  }

  /** `preg_match('#\n *require(_once)?.*?config\.php#', source) !== 0`. */
  function IncludesConfig(source: string): bool {
    Scan.Anywhere(ConfigAt, source)
  }

  /**
    * A line feed at `i`, only spaces up to `j`, "require" at `j` and "config.php" at `k`
    * on the same line.
    */
  ghost predicate ConfigMatch(s: string, i: int, j: int, k: int) {
    0 <= i < j && j + 7 <= k <= |s| && s[i] == '\n' &&
    (forall x :: i < x < j ==> s[x] == ' ') &&
    StartsWith(s[j..], "require") && StartsWith(s[k..], "config.php") && NoNewline(s, j + 7, k)
  }

  /** The front-end check holds exactly when a line starts with spaces, `require` and mentions config.php. */
  lemma ConfigSpec(s: string)
    ensures IncludesConfig(s) <==> exists i, j, k :: ConfigMatch(s, i, j, k)
  {
    if IncludesConfig(s) {
      var i :| 0 <= i <= |s| && ConfigAt(s[i..]);
      ConfigAtMatches(s, i);
    }
    if exists i, j, k :: ConfigMatch(s, i, j, k) {
      var i, j, k :| ConfigMatch(s, i, j, k);
      ConfigMatchFound(s, i, j, k);
    }
  }

  /** A match found by the scanner at `i` is a match of the pattern. */
  lemma ConfigAtMatches(s: string, i: nat)
    requires i <= |s| && ConfigAt(s[i..])
    ensures exists j, k :: ConfigMatch(s, i, j, k)
  {
    var t := s[i..];
    var e := SpanEnd(t, 1, IsBlank);
    var k := FindOnLine(t, "config.php", e + 7).value;
    assert t[e..] == s[i + e..] && t[k..] == s[i + k..];
    assert forall x :: i < x < i + e ==> s[x] == t[x - i];
    NoNewlineShift(s, i, e + 7, k);
    assert ConfigMatch(s, i, i + e, i + k);
  }

  /** A match of the pattern starting at `i` is found by the scanner at `i`. */
  lemma ConfigMatchFound(s: string, i: int, j: int, k: int)
    requires ConfigMatch(s, i, j, k)
    ensures ConfigAt(s[i..])
  {
    var t := s[i..];
    assert t[j - i..] == s[j..] && t[k - i..] == s[k..];
    assert forall x :: 1 <= x < j - i ==> t[x] == s[x + i];
    assert t[j - i] == 'r' by { assert t[j - i] == s[j..][0]; }
    SpanEndIs(t, 1, j - i, IsBlank);
    NoNewlineShift(s, i, j - i + 7, k - i);
  }

  // ---------------------------------------------------------------------------

  /** The gatekeeper: the reason of the first check that matches, or no reason at all. */
  function Check(path: string, source: string): Option<Reason> {
    if IsLangPath(path) then Some(LangFile)
    else if DefinesCliScript(source) then Some(CliScript)
    else if IncludesConfig(source) then Some(FrontEndScript)
    else None
  }

  /**
    * The checks run in source order and the first one that matches gives the reason; a
    * lang path is skipped as a lang file whatever the text holds.
    */
  lemma CheckSpec(path: string, source: string)
    ensures Check(path, source) == Some(LangFile) <==> exists i, j :: LangMatch(path, i, j)
    ensures Check(path, source) == Some(CliScript) <==>
              !(exists i, j :: LangMatch(path, i, j)) && exists i, j, k :: CliMatch(source, i, j, k)
    ensures Check(path, source) == Some(FrontEndScript) <==>
              !(exists i, j :: LangMatch(path, i, j)) && !(exists i, j, k :: CliMatch(source, i, j, k)) &&
              exists i, j, k :: ConfigMatch(source, i, j, k)
    ensures Check(path, source) == None <==>
              !(exists i, j :: LangMatch(path, i, j)) && !(exists i, j, k :: CliMatch(source, i, j, k)) &&
              !(exists i, j, k :: ConfigMatch(source, i, j, k))
  {
    LangPathSpec(path);
    CliScriptSpec(source);
    ConfigSpec(source);
  }
}
