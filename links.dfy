/**
  * The two link rewrites of phpdocs/doxygen-filter.php that come after the tag renames:
  * tracker codes become anchors into the issue tracker (lines 158-160) and inline
  * `{@link}` tags become an HTML anchor or an `@link ... @endlink` pair (lines 170-183).
  */
module Links {
  import opened Wrappers
  import opened Text
  import Scan

  // ---------------------------------------------------------------------------
  // Lines 158-160: `#([^/])((?:MDL|MDLSITE|CONTRIB|MDLQA|MDLTEST)-\d+)\b#` replaced by
  // `${1}<a class="el" href="https://tracker.moodle.org/browse/${2}">${2}</a>`.

  /**
    * The project of a tracker code at the start of `t`, alternatives tried in the
    * pattern's order. No project followed by '-' is a prefix of another one followed by
    * '-', so at most one alternative can take part in a match.
    */
  function Project(t: string): (r: Option<string>)
    ensures r.Some? ==> StartsWith(t, r.value + "-")
  {
    if StartsWith(t, "MDL-") then Some("MDL")
    else if StartsWith(t, "MDLSITE-") then Some("MDLSITE")
    else if StartsWith(t, "CONTRIB-") then Some("CONTRIB")
    else if StartsWith(t, "MDLQA-") then Some("MDLQA")
    else if StartsWith(t, "MDLTEST-") then Some("MDLTEST")
    else None
  }

  /**
    * Where group 2 ends when a tracker code starts `t`: the project, '-', the greedy
    * `\d+` and a `\b` after it. Giving digits back cannot help, since no word boundary
    * lies between two digits.
    */
  function CodeEnd(t: string): (r: Option<nat>)
    ensures r.Some? ==> r.value <= |t|
  {
    match Project(t)
    case None => None
    case Some(p) =>
      var d := SpanEnd(t, |p| + 1, IsDigit);
      if d == |p| + 1 || (d < |t| && IsWordChar(t[d])) then None else Some(d)
  }

  /** The anchor that the code, group 2, becomes. */
  function TrackerAnchor(code: string): string {
    "<a class=\"el\" href=\"https://tracker.moodle.org/browse/" + code + "\">" + code + "</a>"
  }

  /** The matcher of line 158: the character before the code, group 1, is kept. */
  function TrackerMatch(t: string): Option<Scan.Hit> {
    if |t| == 0 || t[0] == '/' then None
    else
      match CodeEnd(t[1..])
      case None => None
      case Some(d) => Some(Scan.Hit(1 + d, [t[0]] + TrackerAnchor(t[1..1 + d])))
  }

  /** `preg_replace` of lines 158-160. */
  function LinkTrackerCodes(s: string): string {
    Scan.ReplaceAll(TrackerMatch, s)
  }

  /** The five projects of line 158. */
  predicate IsProject(p: string) {
    p == "MDL" || p == "MDLSITE" || p == "CONTRIB" || p == "MDLQA" || p == "MDLTEST"
  }

  // The alternation finds the project that is there.
  lemma ProjectAt(t: string, p: string)
    requires IsProject(p) && StartsWith(t, p + "-")
    ensures Project(t) == Some(p)
  {
    assert t[0] == p[0] && t[3] == (p + "-")[3] by { assert t[..|p| + 1] == p + "-"; }
    if p != "MDL" { Differs(t, "MDL-", 3); }
    if p == "CONTRIB" || p == "MDLQA" || p == "MDLTEST" { Differs(t, "MDLSITE-", 3); }
    if p == "MDLQA" || p == "MDLTEST" { Differs(t, "CONTRIB-", 0); }
    if p == "MDLTEST" { Differs(t, "MDLQA-", 3); }
  }

  // A project, '-', digits and a boundary make a code.
  lemma CodeOn(code: string, p: string, digits: string, v: string)
    requires IsProject(p) && |digits| > 0 && AllIn(digits, IsDigit)
    requires v == [] || !IsWordChar(v[0])
    requires code == p + "-" + digits
    ensures CodeEnd(code + v) == Some(|code|)
  {
    var t := code + v;
    var d := |code|;
    assert StartsWith(t, p + "-") && Within(t, |p| + 1, d, IsDigit) && t[d..] == v by {
      WithinOf(t, p + "-", digits, v, IsDigit);
      Framed(t, p + "-", digits, v);
    }
    ProjectAt(t, p);
    assert d < |t| ==> !IsDigit(t[d]) && !IsWordChar(t[d]) by { assert d < |t| ==> t[d] == v[0]; }
    SpanAt(t, |p| + 1, d, IsDigit);
  }

  /**
    * A code after any character but '/' is one match of line 158: the character stays
    * and the code becomes the anchor to its tracker issue.
    */
  lemma TrackerMatchOn(x: string, c: char, code: string, p: string, digits: string, v: string)
    requires c != '/' && IsProject(p) && |digits| > 0 && AllIn(digits, IsDigit)
    requires v == [] || !IsWordChar(v[0])
    requires code == p + "-" + digits && x == [c] + code
    ensures TrackerMatch(x + v) == Some(Scan.Hit(|x|, [c] + TrackerAnchor(code)))
  {
    var t := x + v;
    assert t[0] == c && t[1..1 + |code|] == code && t[1..] == code + v by { Framed(t, [c], code, v); }
    CodeOn(code, p, digits, v);
    TrackerHitAt(t, c, code);
  }

  // The matcher of line 158 at a text whose code, after the first character, ends at `d`.
  lemma TrackerHitAt(t: string, c: char, code: string)
    requires |t| > |code| && t[0] == c && c != '/' && CodeEnd(t[1..]) == Some(|code|) && t[1..1 + |code|] == code
    ensures TrackerMatch(t) == Some(Scan.Hit(1 + |code|, [c] + TrackerAnchor(code)))
  {
  }

  // Every match of line 158 stands before an 'M' or a 'C' after a character other than '/'.
  lemma TrackerLead(t: string)
    ensures Scan.Fires(TrackerMatch, t) ==> 2 <= |t| && t[0] != '/' && (t[1] == 'M' || t[1] == 'C')
  {
    if Scan.Fires(TrackerMatch, t) {
      var z := t[1..];
      var p := Project(z).value;
      assert StartsWith(z, p + "-");
      assert z[0] == (p + "-")[0] == t[1];
    }
  }

  /**
    * Line 158's pattern with its ends: a character other than '/', project `p` and '-'
    * after it, digits up to `n` and a word boundary at `n`.
    */
  predicate CodeAt(t: string, p: string, n: nat) {
    0 < |t| && t[0] != '/' && IsProject(p) && StartsWith(t[1..], p + "-") &&
    2 + |p| < n <= |t| && Within(t, 2 + |p|, n, IsDigit) && (n == |t| || !IsWordChar(t[n]))
  }

  /** The pattern matches exactly where a bounded tracker code follows a character other than '/'. */
  lemma TrackerFires(t: string)
    ensures Scan.Fires(TrackerMatch, t) <==> exists p: string, n: nat :: CodeAt(t, p, n)
  {
    if Scan.Fires(TrackerMatch, t) {
      var p, n := FiredCode(t);
    }
    if p: string, n: nat :| CodeAt(t, p, n) {
      CodeFires(t, p, n);
    }
  }

  // A match is a code after a character other than '/'.
  lemma FiredCode(t: string) returns (p: string, n: nat)
    requires Scan.Fires(TrackerMatch, t)
    ensures CodeAt(t, p, n)
  {
    var z := t[1..];
    p := Project(z).value;
    var d := CodeEnd(z).value;
    n := 1 + d;
    forall k | 2 + |p| <= k < n ensures IsDigit(t[k]) { assert t[k] == z[k - 1]; }
    assert n < |t| ==> t[n] == z[d];
  }

  // A code after a character other than '/' is a match.
  lemma CodeFires(t: string, p: string, n: nat)
    requires CodeAt(t, p, n)
    ensures Scan.Fires(TrackerMatch, t)
  {
    var z := t[1..];
    ProjectAt(z, p);
    forall k | |p| + 1 <= k < n - 1 ensures IsDigit(z[k]) { assert z[k] == t[k + 1]; }
    assert n - 1 < |z| ==> z[n - 1] == t[n];
    SpanEndIs(z, |p| + 1, n - 1, IsDigit);
    assert CodeEnd(z) == Some(n - 1);
  }

  /** At the leftmost match, the code after a character other than '/' is linked. */
  lemma TrackerLinked(u: string, x: string, c: char, code: string, p: string, digits: string, v: string)
    requires Scan.NoHitBefore(TrackerMatch, u + x + v, |u|) && c != '/'
    requires IsProject(p) && |digits| > 0 && AllIn(digits, IsDigit)
    requires v == [] || !IsWordChar(v[0])
    requires code == p + "-" + digits && x == [c] + code
    ensures LinkTrackerCodes(u + x + v) == u + ([c] + TrackerAnchor(code)) + LinkTrackerCodes(v)
  {
    TrackerMatchOn(x, c, code, p, digits, v);
    Scan.HitAfter(TrackerMatch, u, x, v, [c] + TrackerAnchor(code));
  }

  /** A code right after '/', as in a URL, is not linked: no match can start at the '/'. */
  lemma SlashedCodeKept(t: string)
    ensures TrackerMatch("/" + t) == None
  {
  }

  /** A text in which every 'M' and 'C' follows a '/' keeps all its codes as they are. */
  lemma SlashedCodesKept(s: string)
    requires forall i :: 0 < i < |s| && (s[i] == 'M' || s[i] == 'C') ==> s[i - 1] == '/'
    ensures LinkTrackerCodes(s) == s
  {
    forall i | 0 <= i <= |s| ensures !Scan.Fires(TrackerMatch, s[i..]) {
      TrackerLead(s[i..]);
      assert i + 1 < |s| ==> s[i..][1] == s[i + 1] && s[i..][0] == s[i];
    }
    Scan.NoHitUnchanged(TrackerMatch, s);
  }

  /** A code that runs on into a letter or '_' has no word boundary and is not linked. */
  lemma UnboundedCodeKept(c: char, p: string, digits: string, w: char, v: string)
    requires IsProject(p) && |digits| > 0 && AllIn(digits, IsDigit)
    requires IsWordChar(w) && !IsDigit(w)
    ensures TrackerMatch([c] + p + "-" + digits + [w] + v) == None
  {
    var t := [c] + p + "-" + digits + [w] + v;
    var z := (p + "-") + digits + ([w] + v);
    var d := |p| + 1 + |digits|;
    assert t[1..] == z;
    assert StartsWith(z, p + "-") && Within(z, |p| + 1, d, IsDigit) && z[d..] == [w] + v by {
      WithinOf(z, p + "-", digits, [w] + v, IsDigit);
      Framed(z, p + "-", digits, [w] + v);
    }
    ProjectAt(z, p);
    assert z[d] == w;
    SpanAt(z, |p| + 1, d, IsDigit);
  }

  // ---------------------------------------------------------------------------
  // Lines 170-183: `#\{\@link\s+([^ \n}]+)\s*([^ \n}]*)(\s*)\}#` with its callback.
  //
  // No part of the pattern before its final `\}` takes a '}', so a match runs from
  // "{@link" to the first '}' after it, and the text `r` in between is split from the
  // left by greedy quantifiers that give back one character at a time: `\s+`, group 1
  // `[^ \n}]+`, `\s*`, group 2 `[^ \n}]*` and group 3 `\s*`. Each stage below is the
  // largest end for its quantifier from which the later ones still reach the end of `r`.
  // Tabs, carriage returns, vertical tabs and form feeds are both `\s` and `[^ \n}]`.

  /** The class `[^ \n}]` of groups 1 and 2. */
  predicate InWord(c: char) { c != ' ' && c != '\n' && c != '}' }

  /** Anything but the closing brace. */
  predicate NotBrace(c: char) { c != '}' }

  /** Group 3 from `q`: whitespace up to the end of `r`. */
  predicate TrailFits(r: string, q: nat) {
    q <= |r| && AllIn(r[q..], IsSpace)
  }

  /** The end of group 2 from `q`. */
  function LabelEnd(r: string, q: nat): Option<nat>
    requires q <= |r|
  {
    LastFit(q, SpanEnd(r, q, InWord), (j: nat) => TrailFits(r, j))
  }

  /** The end of the `\s*` between groups 1 and 2, from `q`. */
  function GapEnd(r: string, q: nat): Option<nat>
    requires q <= |r|
  {
    LastFit(q, SpanEnd(r, q, IsSpace), (j: nat) => j <= |r| && LabelEnd(r, j).Some?)
  }

  /** The end of group 1 from `q`: at least one character. */
  function TargetEnd(r: string, q: nat): Option<nat>
    requires q <= |r|
  {
    LastFit(q + 1, SpanEnd(r, q, InWord), (j: nat) => j <= |r| && GapEnd(r, j).Some?)
  }

  /** The end of the `\s+` after "@link": at least one character. */
  function LeadEnd(r: string): Option<nat> {
    LastFit(1, SpanEnd(r, 0, IsSpace), (j: nat) => j <= |r| && TargetEnd(r, j).Some?)
  }

  /** The three groups of an inline link. */
  datatype LinkGroups = LinkGroups(target: string, caption: string, trail: string)

  /** The groups the pattern gives `r`, the text between "{@link" and the first '}'. */
  function LinkParts(r: string): Option<LinkGroups> {
    match LeadEnd(r)
    case None => None
    case Some(a) =>
      match TargetEnd(r, a)
      case None => None
      case Some(b) =>
        match GapEnd(r, b)
        case None => None
        case Some(c) =>
          match LabelEnd(r, c)
          case None => None
          case Some(d) => Some(LinkGroups(r[a..b], r[c..d], r[d..]))
  }

  /** Where line 172's `#([a-zA-Z]+:\/\/|mailto\:)\S*#` can start in `t`. */
  predicate UrlAt(t: string) {
    var e := SpanEnd(t, 0, IsLetter);
    (0 < e && StartsWith(t[e..], "://")) || StartsWith(t, "mailto:")
  }

  /** Line 172: the target is a URL when that pattern matches anywhere in it. */
  predicate IsUrl(target: string) {
    Scan.Anywhere(UrlAt, target)
  }

  /** A letter right before "://" at `j`. */
  predicate SchemeAt(s: string, j: nat) {
    0 < j && j + 3 <= |s| && IsLetter(s[j - 1]) && s[j..j + 3] == "://"
  }

  /** "mailto:" at `j`. */
  predicate MailtoAt(s: string, j: nat) {
    j + 7 <= |s| && s[j..j + 7] == "mailto:"
  }

  /** Line 176: an HTML anchor to the URL around the caption, then group 3. */
  function UrlAnchor(target: string, caption: string, trail: string): string {
    "<a class=\"el externalurl\" href=\"" + target + "\">" + caption + "</a>" + trail
  }

  /** Line 181: a Doxygen `@link` to a page, `tail` after the target, then group 3. */
  function PageRef(target: string, tail: string, trail: string): string {
    "@link " + target + tail + " @endlink" + trail
  }

  /** The callback of lines 171-183 on the three groups. */
  function LinkText(g: LinkGroups): string {
    if IsUrl(g.target) then UrlAnchor(g.target, g.caption, g.trail)
    else PageRef(g.target, Trim(" " + g.caption), g.trail)
  }

  /** The matcher of line 170. */
  function InlineLinkMatch(t: string): Option<Scan.Hit> {
    if !StartsWith(t, "{@link") then None
    else
      var c := SpanEnd(t, 6, NotBrace);
      if c == |t| then None
      else
        match LinkParts(t[6..c])
        case None => None
        case Some(g) => Some(Scan.Hit(c + 1, LinkText(g)))
  }

  /** `preg_replace_callback` of lines 170-183. */
  function ExpandInlineLinks(s: string): string {
    Scan.ReplaceAll(InlineLinkMatch, s)
  }

  // A start of line 172's pattern is a scheme or a "mailto:" in the target.
  lemma UrlFound(s: string, i: nat)
    requires i <= |s| && UrlAt(s[i..])
    ensures (exists j: nat :: SchemeAt(s, j)) || (exists j: nat :: MailtoAt(s, j))
  {
    var t := s[i..];
    var e := SpanEnd(t, 0, IsLetter);
    if 0 < e && StartsWith(t[e..], "://") {
      assert s[i + e - 1] == t[e - 1];
      assert s[i + e..i + e + 3] == t[e..][..3];
      assert SchemeAt(s, i + e);
    } else {
      assert s[i..i + 7] == t[..7];
      assert MailtoAt(s, i);
    }
  }

  // A letter and "://" start line 172's pattern at the letter.
  lemma SchemeUrl(s: string, j: nat)
    requires SchemeAt(s, j)
    ensures UrlAt(s[j - 1..])
  {
    var t := s[j - 1..];
    assert t[1..4] == s[j..j + 3];
    SpanEndIs(t, 0, 1, IsLetter);
    assert t[1..][..3] == t[1..4];
  }

  // "mailto:" starts line 172's pattern.
  lemma MailtoUrl(s: string, j: nat)
    requires MailtoAt(s, j)
    ensures UrlAt(s[j..])
  {
    assert s[j..][..7] == s[j..j + 7];
  }

  /** The target is a URL exactly when it holds a letter and "://", or "mailto:". */
  lemma UrlIff(s: string)
    ensures IsUrl(s) <==> (exists j: nat :: SchemeAt(s, j)) || (exists j: nat :: MailtoAt(s, j))
  {
    if IsUrl(s) {
      var i :| 0 <= i <= |s| && UrlAt(s[i..]);
      UrlFound(s, i);
    }
    if exists j: nat :: SchemeAt(s, j) {
      var j: nat :| SchemeAt(s, j);
      SchemeUrl(s, j);
    }
    if exists j: nat :: MailtoAt(s, j) {
      var j: nat :| MailtoAt(s, j);
      MailtoUrl(s, j);
    }
  }

  /** Plain text in a group: no whitespace at all, no '}', no NUL (which `trim` drops). */
  predicate Plain(c: char) { !IsSpace(c) && c != '}' && c != '\0' }

  /** Only spaces and line feeds: whitespace that no group 1 or 2 can take. */
  predicate Blank(c: char) { c == ' ' || c == '\n' }

  // The last stage, group 2 and group 3, from `c`.
  lemma LabelStage(r: string, c: nat, d: nat)
    requires c <= d <= |r| && SpanEnd(r, c, InWord) == d && TrailFits(r, d)
    ensures LabelEnd(r, c) == Some(d)
  {
  }

  // The gap before group 2, from `b`.
  lemma GapStage(r: string, b: nat, c: nat, d: nat)
    requires b <= c <= |r| && SpanEnd(r, b, IsSpace) == c && LabelEnd(r, c) == Some(d)
    ensures GapEnd(r, b) == Some(c)
  {
  }

  // Group 1, from `a`.
  lemma TargetStage(r: string, a: nat, b: nat, c: nat)
    requires a < b <= |r| && SpanEnd(r, a, InWord) == b && GapEnd(r, b) == Some(c)
    ensures TargetEnd(r, a) == Some(b)
  {
  }

  // The `\s+` after "@link".
  lemma LeadStage(r: string, a: nat, b: nat)
    requires 0 < a <= |r| && SpanEnd(r, 0, IsSpace) == a && TargetEnd(r, a) == Some(b)
    ensures LeadEnd(r) == Some(a)
  {
  }

  /**
    * Whitespace, a target, spaces or line feeds and a caption, then spaces or line
    * feeds: the groups are the target, the caption and the final whitespace.
    */
  lemma LabelledPartsAt(r: string, a: nat, b: nat, c: nat, d: nat)
    requires 0 < a < b < c < d
    requires Within(r, 0, a, IsSpace) && Within(r, a, b, Plain) && Within(r, b, c, Blank)
    requires Within(r, c, d, Plain) && Within(r, d, |r|, Blank)
    ensures LinkParts(r) == Some(LinkGroups(r[a..b], r[c..d], r[d..]))
    ensures AllIn(r, NotBrace)
  {
    assert AllIn(r, NotBrace) by {
      forall k | 0 <= k < |r| ensures r[k] != '}' {
        if k < a { assert IsSpace(r[k]); }
        else if k < b { assert Plain(r[k]); }
        else if k < c { assert Blank(r[k]); }
        else if k < d { assert Plain(r[k]); }
        else { assert Blank(r[k]); }
      }
    }
    SpanAt(r, 0, a, IsSpace);
    SpanAt(r, a, b, InWord);
    SpanAt(r, b, c, IsSpace);
    SpanAt(r, c, d, InWord);
    assert AllIn(r[d..], IsSpace) by {
      forall k | 0 <= k < |r| - d ensures IsSpace(r[d..][k]) { assert r[d..][k] == r[d + k]; }
    }
    LabelStage(r, c, d);
    GapStage(r, b, c, d);
    TargetStage(r, a, b, c);
    LeadStage(r, a, b);
  }

  /**
    * Whitespace and a target, then only spaces or line feeds: the target is group 1,
    * and the final `\s*` takes the whitespace after it, so groups 2 and 3 are empty.
    */
  lemma BarePartsAt(r: string, a: nat, b: nat)
    requires 0 < a < b
    requires Within(r, 0, a, IsSpace) && Within(r, a, b, Plain) && Within(r, b, |r|, Blank)
    ensures LinkParts(r) == Some(LinkGroups(r[a..b], "", ""))
    ensures AllIn(r, NotBrace)
  {
    assert AllIn(r, NotBrace) by {
      forall k | 0 <= k < |r| ensures r[k] != '}' {
        if k < a { assert IsSpace(r[k]); }
        else if k < b { assert Plain(r[k]); }
        else { assert Blank(r[k]); }
      }
    }
    SpanAt(r, 0, a, IsSpace);
    SpanAt(r, a, b, InWord);
    SpanAt(r, b, |r|, IsSpace);
    SpanAt(r, |r|, |r|, InWord);
    LabelStage(r, |r|, |r|);
    GapStage(r, b, |r|, |r|);
    TargetStage(r, a, b, |r|);
    LeadStage(r, a, b);
    assert r[|r|..|r|] == "" && r[|r|..] == "";
  }

  /** `{@link T L}` with a caption, as pieces. */
  lemma LabelledParts(r: string, ws1: string, target: string, ws2: string, caption: string, ws3: string)
    requires |ws1| > 0 && AllIn(ws1, IsSpace) && |target| > 0 && AllIn(target, Plain)
    requires |ws2| > 0 && AllIn(ws2, Blank) && |caption| > 0 && AllIn(caption, Plain) && AllIn(ws3, Blank)
    requires r == ws1 + target + ws2 + caption + ws3
    ensures LinkParts(r) == Some(LinkGroups(target, caption, ws3)) && AllIn(r, NotBrace)
  {
    var a := |ws1|;
    var b := a + |target|;
    var c := b + |ws2|;
    var d := c + |caption|;
    assert Within(r, 0, a, IsSpace) by { WithinOf(r, [], ws1, target + ws2 + caption + ws3, IsSpace); }
    assert Within(r, a, b, Plain) && r[a..b] == target by { WithinOf(r, ws1, target, ws2 + caption + ws3, Plain); }
    assert Within(r, b, c, Blank) by { WithinOf(r, ws1 + target, ws2, caption + ws3, Blank); }
    assert Within(r, c, d, Plain) && r[c..d] == caption by { WithinOf(r, ws1 + target + ws2, caption, ws3, Plain); }
    assert Within(r, d, |r|, Blank) && r[d..] == ws3 by { WithinOf(r, ws1 + target + ws2 + caption, ws3, [], Blank); }
    LabelledPartsAt(r, a, b, c, d);
  }

  /** `{@link T}`, as pieces. */
  lemma BareParts(r: string, ws1: string, target: string, ws2: string)
    requires |ws1| > 0 && AllIn(ws1, IsSpace) && |target| > 0 && AllIn(target, Plain) && AllIn(ws2, Blank)
    requires r == ws1 + target + ws2
    ensures LinkParts(r) == Some(LinkGroups(target, "", "")) && AllIn(r, NotBrace)
  {
    WithinOf(r, [], ws1, target + ws2, IsSpace);
    WithinOf(r, ws1, target, ws2, Plain);
    WithinOf(r, ws1 + target, ws2, [], Blank);
    BarePartsAt(r, |ws1|, |ws1| + |target|);
  }

  /**
    * The language of the pattern between "{@link" and '}': whitespace up to `a`, group 1
    * up to `b`, whitespace up to `c`, group 2 up to `d` and whitespace to the end.
    */
  predicate LinkShape(r: string, a: nat, b: nat, c: nat, d: nat) {
    0 < a < b <= c <= d <= |r| && Within(r, 0, a, IsSpace) && Within(r, a, b, InWord) &&
    Within(r, b, c, IsSpace) && Within(r, c, d, InWord) && Within(r, d, |r|, IsSpace)
  }

  /** The stages split `r` exactly when `r` has the pattern's shape. */
  lemma LinkPartsIff(r: string)
    ensures LinkParts(r).Some? <==> exists a: nat, b: nat, c: nat, d: nat :: LinkShape(r, a, b, c, d)
  {
    if LinkParts(r).Some? {
      var a := LeadEnd(r).value;
      var b := TargetEnd(r, a).value;
      var c := GapEnd(r, b).value;
      var d := LabelEnd(r, c).value;
      assert TrailFits(r, d);
      forall k | d <= k < |r| ensures IsSpace(r[k]) { assert r[k] == r[d..][k - d]; }
      assert LinkShape(r, a, b, c, d);
    }
    if a: nat, b: nat, c: nat, d: nat :| LinkShape(r, a, b, c, d) {
      LabelFits(r, c, d);
      GapFits(r, b, c);
      TargetFits(r, a, b);
      LeadFits(r, a);
    }
  }

  // A run of the class up to `y` ends no earlier than `y`.
  lemma SpanReaches(t: string, x: nat, y: nat, inClass: char -> bool)
    requires Within(t, x, y, inClass)
    ensures y <= SpanEnd(t, x, inClass)
  {
  }

  // Group 2 and group 3 can end `r` from `c`.
  lemma LabelFits(r: string, c: nat, d: nat)
    requires c <= d <= |r| && Within(r, c, d, InWord) && Within(r, d, |r|, IsSpace)
    ensures LabelEnd(r, c).Some?
  {
    assert TrailFits(r, d) by {
      forall k | 0 <= k < |r| - d ensures IsSpace(r[d..][k]) { assert r[d..][k] == r[d + k]; }
    }
    SpanReaches(r, c, d, InWord);
  }

  // The gap before group 2 can stop at `c`.
  lemma GapFits(r: string, b: nat, c: nat)
    requires b <= c <= |r| && Within(r, b, c, IsSpace) && LabelEnd(r, c).Some?
    ensures GapEnd(r, b).Some?
  {
    SpanReaches(r, b, c, IsSpace);
  }

  // Group 1 can stop at `b`.
  lemma TargetFits(r: string, a: nat, b: nat)
    requires a < b <= |r| && Within(r, a, b, InWord) && GapEnd(r, b).Some?
    ensures TargetEnd(r, a).Some?
  {
    SpanReaches(r, a, b, InWord);
  }

  // The `\s+` after "@link" can stop at `a`.
  lemma LeadFits(r: string, a: nat)
    requires 0 < a <= |r| && Within(r, 0, a, IsSpace) && TargetEnd(r, a).Some?
    ensures LeadEnd(r).Some?
  {
    SpanReaches(r, 0, a, IsSpace);
    var fits := (j: nat) => j <= |r| && TargetEnd(r, j).Some?;
    assert fits(a);
    assert LeadEnd(r) == LastFit(1, SpanEnd(r, 0, IsSpace), fits);
  }

  /**
    * Line 170's pattern: "{@link", text without '}' up to the first '}' at `c`, and that
    * text of the shape above.
    */
  predicate LinkTagAt(t: string, c: nat) {
    StartsWith(t, "{@link") && 6 <= c < |t| && t[c] == '}' && Within(t, 6, c, NotBrace) &&
    LinkParts(t[6..c]).Some?
  }

  /** The pattern matches exactly where an inline link tag of that shape stands. */
  lemma InlineLinkFires(t: string)
    ensures Scan.Fires(InlineLinkMatch, t) <==> exists c: nat :: LinkTagAt(t, c)
  {
    if Scan.Fires(InlineLinkMatch, t) {
      assert LinkTagAt(t, SpanEnd(t, 6, NotBrace));
    }
    if c: nat :| LinkTagAt(t, c) {
      SpanAt(t, 6, c, NotBrace);
    }
  }

  // The matcher of line 170 at a text whose tag closes at `c`.
  lemma InlineHitAt(t: string, c: nat, g: LinkGroups)
    requires StartsWith(t, "{@link") && 6 <= c < |t| && SpanEnd(t, 6, NotBrace) == c
    requires LinkParts(t[6..c]) == Some(g)
    ensures InlineLinkMatch(t) == Some(Scan.Hit(c + 1, LinkText(g)))
  {
    var r := t[6..c];
    assert InlineLinkMatch(t) == (match LinkParts(r) case None => None case Some(h) => Some(Scan.Hit(c + 1, LinkText(h))));
  }

  // Where the tag of a text starting with "{@link", `r` and '}' closes.
  lemma TagClose(t: string, r: string, v: string)
    requires AllIn(r, NotBrace) && t == "{@link" + r + "}" + v
    ensures StartsWith(t, "{@link") && 6 + |r| < |t| && SpanEnd(t, 6, NotBrace) == 6 + |r| && t[6..6 + |r|] == r
  {
    var c := 6 + |r|;
    Framed(t, "{@link", r, "}" + v);
    assert t[c] == '}' by { assert t[c..][0] == t[c]; }
    assert Within(t, 6, c, NotBrace) by { forall k | 6 <= k < c ensures t[k] != '}' { assert t[k] == t[6..c][k - 6]; } }
    SpanAt(t, 6, c, NotBrace);
  }

  /** A tag from "{@link" to the first '}' is one match, replaced by what its groups give. */
  lemma InlineLinkOn(x: string, r: string, v: string, g: LinkGroups)
    requires AllIn(r, NotBrace) && LinkParts(r) == Some(g)
    requires x == "{@link" + r + "}"
    ensures InlineLinkMatch(x + v) == Some(Scan.Hit(|x|, LinkText(g)))
  {
    TagClose(x + v, r, v);
    InlineHitAt(x + v, 6 + |r|, g);
  }

  // A match of line 170 starts with '{'.
  lemma LinkLead(t: string)
    ensures Scan.Fires(InlineLinkMatch, t) ==> t[0] == '{'
  {
    if Scan.Fires(InlineLinkMatch, t) { assert t[..6][0] == t[0]; }
  }

  /** No '{' in the text. */
  predicate NoOpenBrace(u: string) {
    forall k :: 0 <= k < |u| ==> u[k] != '{'
  }

  // Nothing matches before the first '{'.
  lemma QuietBeforeBrace(u: string, x: string, v: string)
    requires NoOpenBrace(u)
    ensures Scan.NoHitBefore(InlineLinkMatch, u + x + v, |u|)
  {
    var t := u + x + v;
    forall i | 0 <= i < |u| && i <= |t| ensures !Scan.Fires(InlineLinkMatch, t[i..]) {
      LinkLead(t[i..]);
      assert t[i..][0] == u[i];
    }
  }

  /** At the leftmost match, the inline link is replaced by what the callback makes of it. */
  lemma LinkExpanded(u: string, x: string, r: string, v: string, g: LinkGroups)
    requires Scan.NoHitBefore(InlineLinkMatch, u + x + v, |u|)
    requires AllIn(r, NotBrace) && LinkParts(r) == Some(g)
    requires x == "{@link" + r + "}"
    ensures ExpandInlineLinks(u + x + v) == u + LinkText(g) + ExpandInlineLinks(v)
  {
    InlineLinkOn(x, r, v, g);
    Scan.HitAfter(InlineLinkMatch, u, x, v, LinkText(g));
  }

  /** Where "{@link" starts nowhere before the link, the link is the leftmost match and is expanded. */
  lemma LinkExpandedAfter(u: string, r: string, v: string, g: LinkGroups)
    requires NotStartedIn(u, "{@link")
    requires AllIn(r, NotBrace) && LinkParts(r) == Some(g)
    ensures ExpandInlineLinks(u + ("{@link" + r + "}") + v) == u + LinkText(g) + ExpandInlineLinks(v)
  {
    var x := "{@link" + r + "}";
    forall t | Scan.Fires(InlineLinkMatch, t) ensures StartsWith(t, "{@link") { InlineLinkFires(t); }
    Scan.QuietBeforeLiteral(InlineLinkMatch, "{@link", u, x + v);
    assert u + (x + v) == u + x + v;
    LinkExpanded(u, x, r, v, g);
  }

  /** Text without '{' has no inline link and is kept. */
  lemma NoBraceKept(s: string)
    requires NoOpenBrace(s)
    ensures ExpandInlineLinks(s) == s
  {
    QuietBeforeBrace(s, [], []);
    assert s + [] + [] == s;
    Scan.NoHitUnchanged(InlineLinkMatch, s);
  }

  /** An inline link without a closing brace is not a match. */
  lemma UnclosedLinkKept(r: string)
    requires AllIn(r, NotBrace)
    ensures InlineLinkMatch("{@link" + r) == None
  {
    var t := "{@link" + r;
    if StartsWith(t, "{@link") {
      SpanAt(t, 6, |t|, NotBrace) by { WithinOf(t, "{@link", r, [], NotBrace); }
    }
  }

  // `trim` takes the space back off a caption that starts and ends with plain text.
  lemma TrimCaption(caption: string)
    requires |caption| > 0 && AllIn(caption, Plain)
    ensures Trim(" " + caption) == caption
  {
    var s := " " + caption;
    SpanAt(s, 0, 1, IsTrimmed);
    assert TrailStart(s, |s|) == |s|;
    assert s[1..|s|] == caption;
  }

  /** A target holding a scheme ("letters://") or "mailto:" makes an anchor. */
  lemma UrlLinkText(g: LinkGroups)
    requires (exists j: nat :: SchemeAt(g.target, j)) || (exists j: nat :: MailtoAt(g.target, j))
    ensures LinkText(g) == UrlAnchor(g.target, g.caption, g.trail)
  {
    UrlIff(g.target);
  }

  /**
    * Any other target makes a `@link` to a page. The space that line 180 puts before
    * the caption is trimmed off together with the caption's surroundings and the
    * caption follows the target directly; an empty caption leaves nothing.
    */
  lemma PageLinkText(g: LinkGroups)
    requires !(exists j: nat :: SchemeAt(g.target, j)) && !(exists j: nat :: MailtoAt(g.target, j))
    requires AllIn(g.caption, Plain)
    ensures LinkText(g) == PageRef(g.target, g.caption, g.trail)
  {
    UrlIff(g.target);
    if g.caption == [] {
      assert Trim(" " + g.caption) == [] by { assert AllIn(" " + g.caption, IsTrimmed); }
    } else {
      TrimCaption(g.caption);
    }
  }

  /**
    * `{@link T L}` with a caption, at the leftmost match: the whole tag is replaced by
    * what the callback makes of target T, caption L and the whitespace before '}'.
    */
  lemma LabelledLinkExpanded(u: string, x: string, r: string, ws1: string, target: string, ws2: string,
                             caption: string, ws3: string, v: string)
    requires Scan.NoHitBefore(InlineLinkMatch, u + x + v, |u|)
    requires |ws1| > 0 && AllIn(ws1, IsSpace) && |target| > 0 && AllIn(target, Plain)
    requires |ws2| > 0 && AllIn(ws2, Blank) && |caption| > 0 && AllIn(caption, Plain) && AllIn(ws3, Blank)
    requires r == ws1 + target + ws2 + caption + ws3 && x == "{@link" + r + "}"
    ensures ExpandInlineLinks(u + x + v) == u + LinkText(LinkGroups(target, caption, ws3)) + ExpandInlineLinks(v)
  {
    LabelledParts(r, ws1, target, ws2, caption, ws3);
    LinkExpanded(u, x, r, v, LinkGroups(target, caption, ws3));
  }

  /** `{@link T}` at the leftmost match: replaced by what the callback makes of T alone. */
  lemma BareLinkExpanded(u: string, x: string, r: string, ws1: string, target: string, ws2: string, v: string)
    requires Scan.NoHitBefore(InlineLinkMatch, u + x + v, |u|)
    requires |ws1| > 0 && AllIn(ws1, IsSpace) && |target| > 0 && AllIn(target, Plain)
    requires AllIn(ws2, Blank)
    requires r == ws1 + target + ws2 && x == "{@link" + r + "}"
    ensures ExpandInlineLinks(u + x + v) == u + LinkText(LinkGroups(target, "", "")) + ExpandInlineLinks(v)
  {
    BareParts(r, ws1, target, ws2);
    LinkExpanded(u, x, r, v, LinkGroups(target, "", ""));
  }
}
