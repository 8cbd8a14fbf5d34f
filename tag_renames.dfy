/**
  * The tag renames (phpdocs/doxygen-filter.php, lines 97-99 and 146-166): `@return`
  * becomes `@retval`, `@package` becomes `@ingroup`, `@access <level>` becomes the tag
  * `@<level>`, and a block-level `@link` becomes `@externalurl`.
  */
module TagRenames {
  import opened Wrappers
  import opened Text
  import Scan

  // ---------------------------------------------------------------------------
  // Lines 97-99: `#@return(\s+)#` replaced by `@retval${1}`.

  /** "@return" followed by whitespace: where line 97's pattern matches. */
  predicate ReturnAt(t: string) {
    StartsWith(t, "@return") && 7 < |t| && IsSpace(t[7])
  }

  /** The matcher of line 97: the tag and all the whitespace after it, the tag renamed. */
  function RetvalMatch(t: string): Option<Scan.Hit> {
    if ReturnAt(t) then
      var e := SpanEnd(t, 7, IsSpace);
      Some(Scan.Hit(e, "@retval" + t[7..e]))
    else None
  }

  /** `preg_replace('#@return(\s+)#', '@retval${1}', source)`. */
  function RenameReturns(s: string): string {
    Scan.ReplaceAll(RetvalMatch, s)
  }

  /**
    * The rename said directly: every "@return" that whitespace follows becomes "@retval",
    * and every other character stays where it is.
    */
  function Retvals(s: string): (r: string)
    ensures |r| == |s|
    decreases |s|
  {
    if s == [] then []
    else if ReturnAt(s) then "@retval" + Retvals(s[7..])
    else [s[0]] + Retvals(s[1..])
  }

  // Whitespace is copied, since no tag starts inside it.
  lemma {:induction false} RetvalsCopiesSpace(s: string, e: nat)
    requires e <= |s| && forall k :: 0 <= k < e ==> IsSpace(s[k])
    ensures Retvals(s) == s[..e] + Retvals(s[e..])
    decreases e
  {
    if e > 0 {
      assert Retvals(s) == [s[0]] + Retvals(s[1..]) by {
        assert IsSpace(s[0]);
        LeadOf(s, "@return");
      }
      assert forall k :: 0 <= k < e - 1 ==> IsSpace(s[1..][k]) by {
        forall k | 0 <= k < e - 1 ensures IsSpace(s[1..][k]) { assert s[1..][k] == s[k + 1]; }
      }
      RetvalsCopiesSpace(s[1..], e - 1);
      assert s[1..][e - 1..] == s[e..];
      assert s[..e] == [s[0]] + s[1..][..e - 1];
      Reassoc(Retvals(s), [s[0]], s[1..][..e - 1], Retvals(s[e..]));
    } else {
      assert s[..0] + Retvals(s[0..]) == Retvals(s) by { assert s[0..] == s; }
    }
  }

  /** Line 97's rewrite is the direct rename: the greedy whitespace changes nothing. */
  lemma {:induction false} RenameReturnsSpec(s: string)
    ensures RenameReturns(s) == Retvals(s)
    decreases |s|
  {
    if s != [] {
      if ReturnAt(s) {
        var e := SpanEnd(s, 7, IsSpace);
        RenameReturnsSpec(s[e..]);
        ReturnStep(s, e);
      } else {
        RenameReturnsSpec(s[1..]);
        OtherStep(s);
      }
    }
  }

  // A match: the tag is renamed and its whitespace copied, on both sides.
  lemma ReturnStep(s: string, e: nat)
    requires ReturnAt(s) && e == SpanEnd(s, 7, IsSpace) && RenameReturns(s[e..]) == Retvals(s[e..])
    ensures RenameReturns(s) == Retvals(s)
  {
    var t := s[7..];
    var gap := s[7..e];
    assert RetvalMatch(s) == Some(Scan.Hit(e, "@retval" + gap));
    Scan.FireStep(RetvalMatch, s, s[e..]);
    assert forall k :: 0 <= k < e - 7 ==> IsSpace(t[k]) by {
      forall k | 0 <= k < e - 7 ensures IsSpace(t[k]) { assert t[k] == s[7 + k]; }
    }
    RetvalsCopiesSpace(t, e - 7);
    assert t[..e - 7] == gap && t[e - 7..] == s[e..];
    assert Retvals(s) == "@retval" + (gap + Retvals(s[e..]));
    Reassoc(Retvals(s), "@retval", gap, Retvals(s[e..]));
  }

  // No match: the first character is copied, on both sides.
  lemma OtherStep(s: string)
    requires s != [] && !ReturnAt(s) && RenameReturns(s[1..]) == Retvals(s[1..])
    ensures RenameReturns(s) == Retvals(s)
  {
    assert !Scan.Fires(RetvalMatch, s);
  }

  /** The rename keeps the text's length, so every line keeps its length too. */
  lemma RenameReturnsLength(s: string)
    ensures |RenameReturns(s)| == |s|
  {
    RenameReturnsSpec(s);
  }

  /** A text without "@return" followed by whitespace is left unchanged. */
  lemma NoReturnUnchanged(s: string)
    requires forall i :: 0 <= i < |s| ==> !ReturnAt(s[i..])
    ensures RenameReturns(s) == s
  {
    Scan.NoHitUnchanged(RetvalMatch, s);
  }

  // ---------------------------------------------------------------------------
  // Lines 146-148: `#\@package\s+([^\n]*)#` replaced by `@ingroup ${1}`.

  /** "@package" followed by whitespace: where line 146's pattern matches. */
  predicate PackageAt(t: string) {
    StartsWith(t, "@package") && 8 < |t| && IsSpace(t[8])
  }

  /**
    * The matcher of line 146. The greedy `\s+` may cross line feeds; the group then
    * takes the rest of the line it stops on, and the whitespace becomes a single space.
    */
  function IngroupMatch(t: string): Option<Scan.Hit> {
    if PackageAt(t) then
      var b := SpanEnd(t, 8, IsSpace);
      var e := SpanEnd(t, b, NotNewline);
      Some(Scan.Hit(e, "@ingroup " + t[b..e]))
    else None
  }

  /** `preg_replace('#\@package\s+([^\n]*)#', '@ingroup ${1}', source)`. */
  function PackagesToGroups(s: string): string {
    Scan.ReplaceAll(IngroupMatch, s)
  }

  // The tag among whitespace and a value that runs to the end of its line.
  lemma IngroupMatchOn(x: string, ws: string, value: string, v: string)
    requires |ws| > 0 && AllIn(ws, IsSpace)
    requires '\n' !in value && (value == [] ==> v == []) && (value != [] ==> !IsSpace(value[0]))
    requires v == [] || v[0] == '\n'
    requires x == "@package" + ws + value
    ensures IngroupMatch(x + v) == Some(Scan.Hit(|x|, "@ingroup " + value))
  {
    var t := x + v;
    var b := 8 + |ws|;
    var e := b + |value|;
    assert StartsWith(t, "@package") && Within(t, 8, b, IsSpace) by { WithinOf(t, "@package", ws, value + v, IsSpace); }
    assert Within(t, b, e, NotNewline) && t[b..e] == value by {
      WithinOf(t, "@package" + ws, value, v, NotNewline);
      assert AllIn(value, NotNewline);
    }
    assert e < |t| ==> t[e] == '\n' by { assert t[e..] == v; }
    assert b < |t| ==> !IsSpace(t[b]) by { assert b < e ==> t[b] == value[0]; }
    SpanAt(t, 8, b, IsSpace);
    SpanAt(t, b, e, NotNewline);
  }

  /** Line 146's pattern matches exactly where "@package" and whitespace stand. */
  lemma IngroupFires(t: string)
    ensures Scan.Fires(IngroupMatch, t) <==> PackageAt(t)
  {
    if PackageAt(t) {
      var b := SpanEnd(t, 8, IsSpace);
      assert 8 < b;
    }
  }

  /**
    * At the leftmost match, a `@package <value>` tag becomes `@ingroup <value>`, its
    * whitespace a single space.
    */
  lemma PackageRenamed(u: string, x: string, ws: string, value: string, v: string)
    requires Scan.NoHitBefore(IngroupMatch, u + x + v, |u|)
    requires |ws| > 0 && AllIn(ws, IsSpace)
    requires '\n' !in value && (value == [] ==> v == []) && (value != [] ==> !IsSpace(value[0]))
    requires v == [] || v[0] == '\n'
    requires x == "@package" + ws + value
    ensures PackagesToGroups(u + x + v) == u + ("@ingroup " + value) + PackagesToGroups(v)
  {
    IngroupMatchOn(x, ws, value, v);
    Scan.HitAfter(IngroupMatch, u, x, v, "@ingroup " + value);
  }

  /** Where "@package" starts nowhere before the tag, the tag is the leftmost match and is renamed. */
  lemma PackageRenamedAfter(u: string, ws: string, value: string, v: string)
    requires NotStartedIn(u, "@package")
    requires |ws| > 0 && AllIn(ws, IsSpace)
    requires '\n' !in value && (value == [] ==> v == []) && (value != [] ==> !IsSpace(value[0]))
    requires v == [] || v[0] == '\n'
    ensures PackagesToGroups(u + ("@package" + ws + value) + v) == u + ("@ingroup " + value) + PackagesToGroups(v)
  {
    var x := "@package" + ws + value;
    forall t | Scan.Fires(IngroupMatch, t) ensures StartsWith(t, "@package") { IngroupFires(t); }
    Scan.QuietBeforeLiteral(IngroupMatch, "@package", u, x + v);
    assert u + (x + v) == u + x + v;
    PackageRenamed(u, x, ws, value, v);
  }

  /** A text without "@package" followed by whitespace is left unchanged. */
  lemma NoPackageUnchanged(s: string)
    requires forall i :: 0 <= i < |s| ==> !PackageAt(s[i..])
    ensures PackagesToGroups(s) == s
  {
    Scan.NoHitUnchanged(IngroupMatch, s);
  }

  // ---------------------------------------------------------------------------
  // Lines 152-154: `#\@access\s+(private|protected|public)#` replaced by `@${1}`.

  /** The access level at the start of `t`, tried in the pattern's order. */
  function AccessLevel(t: string): Option<string> {
    if StartsWith(t, "private") then Some("private")
    else if StartsWith(t, "protected") then Some("protected")
    else if StartsWith(t, "public") then Some("public")
    else None
  }

  /**
    * The matcher of line 152. The pattern has no word boundary after the level, so
    * `@access publicity` becomes `@publicity`.
    */
  function AccessMatch(t: string): Option<Scan.Hit> {
    if StartsWith(t, "@access") && 7 < |t| && IsSpace(t[7]) then
      var b := SpanEnd(t, 7, IsSpace);
      match AccessLevel(t[b..])
      case None => None
      case Some(level) => Some(Scan.Hit(b + |level|, "@" + level))
    else None
  }

  /** `preg_replace('#\@access\s+(private|protected|public)#', '@${1}', source)`. */
  function AccessToTags(s: string): string {
    Scan.ReplaceAll(AccessMatch, s)
  }

  /** The three levels line 152 knows. */
  predicate IsLevel(level: string) {
    level == "private" || level == "protected" || level == "public"
  }

  // The alternation finds the level that is there.
  lemma AccessLevelOn(level: string, v: string)
    requires IsLevel(level)
    ensures AccessLevel(level + v) == Some(level)
  {
    var t := level + v;
    assert t[..|level|] == level;
    assert t[1] == level[1] && t[2] == level[2];
  }

  // The tag, its whitespace and a level are one match.
  lemma AccessMatchOn(x: string, ws: string, level: string, v: string)
    requires |ws| > 0 && AllIn(ws, IsSpace) && IsLevel(level) && x == "@access" + ws + level
    ensures AccessMatch(x + v) == Some(Scan.Hit(|x|, "@" + level))
  {
    var t := x + v;
    var b := 7 + |ws|;
    assert StartsWith(t, "@access") && Within(t, 7, b, IsSpace) by { WithinOf(t, "@access", ws, level + v, IsSpace); }
    assert t[b..] == level + v by { Framed(t, "@access", ws, level + v); }
    assert !IsSpace(t[b]) by { assert t[b] == (level + v)[0] == level[0]; }
    SpanAt(t, 7, b, IsSpace);
    AccessLevelOn(level, v);
  }

  /**
    * Line 152's pattern: "@access", a run of whitespace ending at `b`, and one of the
    * three levels at `b`.
    */
  ghost predicate AccessAt(t: string, b: nat) {
    StartsWith(t, "@access") && 7 < b <= |t| && Within(t, 7, b, IsSpace) &&
    exists level :: IsLevel(level) && StartsWith(t[b..], level)
  }

  /** The pattern matches exactly where "@access", whitespace and a level stand. */
  lemma AccessFires(t: string)
    ensures Scan.Fires(AccessMatch, t) <==> exists b: nat :: AccessAt(t, b)
  {
    if Scan.Fires(AccessMatch, t) {
      var b := SpanEnd(t, 7, IsSpace);
      var level := AccessLevel(t[b..]).value;
      assert IsLevel(level) && StartsWith(t[b..], level);
      assert AccessAt(t, b);
    }
    if b: nat :| AccessAt(t, b) {
      var level :| IsLevel(level) && StartsWith(t[b..], level);
      assert t[b] == t[b..][..|level|][0] == level[0];
      SpanAt(t, 7, b, IsSpace);
      var rest := t[b + |level|..];
      assert t[b..] == level + rest;
      AccessLevelOn(level, rest);
    }
  }

  /** At the leftmost match, `@access <level>` becomes the tag `@<level>`. */
  lemma AccessRenamed(u: string, x: string, ws: string, level: string, v: string)
    requires Scan.NoHitBefore(AccessMatch, u + x + v, |u|)
    requires |ws| > 0 && AllIn(ws, IsSpace) && IsLevel(level) && x == "@access" + ws + level
    ensures AccessToTags(u + x + v) == u + ("@" + level) + AccessToTags(v)
  {
    AccessMatchOn(x, ws, level, v);
    Scan.HitAfter(AccessMatch, u, x, v, "@" + level);
  }

  /** Where "@access" starts nowhere before the tag, the tag is the leftmost match and is renamed. */
  lemma AccessRenamedAfter(u: string, ws: string, level: string, v: string)
    requires NotStartedIn(u, "@access")
    requires |ws| > 0 && AllIn(ws, IsSpace) && IsLevel(level)
    ensures AccessToTags(u + ("@access" + ws + level) + v) == u + ("@" + level) + AccessToTags(v)
  {
    var x := "@access" + ws + level;
    forall t | Scan.Fires(AccessMatch, t) ensures StartsWith(t, "@access") { AccessFires(t); }
    Scan.QuietBeforeLiteral(AccessMatch, "@access", u, x + v);
    assert u + (x + v) == u + x + v;
    AccessRenamed(u, x, ws, level, v);
  }

  /** Any other access value is left alone. */
  lemma OtherAccessKept(ws: string, value: string)
    requires |ws| > 0 && AllIn(ws, IsSpace)
    requires |value| > 0 && !IsSpace(value[0]) && AccessLevel(value) == None
    ensures AccessMatch("@access" + ws + value) == None
  {
    var t := "@access" + ws + value;
    var b := 7 + |ws|;
    assert t[..7] == "@access";
    assert forall k :: 7 <= k < b ==> t[k] == ws[k - 7];
    assert t[b] == value[0];
    SpanEndIs(t, 7, b, IsSpace);
    assert t[b..] == value;
  }

  // ---------------------------------------------------------------------------
  // Lines 164-166: `#(\*\s+)\@link(\s+\S+)#` replaced by `${1}@externalurl${2}`.

  /**
    * The matcher of line 164: a "*", whitespace, "@link", whitespace and a target. Every
    * run is maximal, because the item that follows it cannot start with the run's class.
    */
  function ExternalUrlMatch(t: string): Option<Scan.Hit> {
    if |t| < 2 || t[0] != '*' || !IsSpace(t[1]) then None
    else LinkAfter(t, SpanEnd(t, 1, IsSpace))
  }

  // The rest of the match once group 1 ends at `a`: "@link" and whitespace.
  function LinkAfter(t: string, a: nat): Option<Scan.Hit>
    requires a <= |t|
  {
    if !StartsWith(t[a..], "@link") || a + 5 >= |t| || !IsSpace(t[a + 5]) then None
    else TargetAfter(t, a, SpanEnd(t, a + 5, IsSpace))
  }

  // The target once the whitespace after "@link" ends at `c`; "@link" is at `a`.
  function TargetAfter(t: string, a: nat, c: nat): Option<Scan.Hit>
    requires a + 5 <= c <= |t|
  {
    if c == |t| then None
    else
      var e := SpanEnd(t, c, NotSpace);
      Some(Scan.Hit(e, t[..a] + "@externalurl" + t[a + 5..e]))
  }

  /** `preg_replace('#(\*\s+)\@link(\s+\S+)#', '${1}@externalurl${2}', source)`. */
  function LinksToExternalUrls(s: string): string {
    Scan.ReplaceAll(ExternalUrlMatch, s)
  }

  // A docblock line "* @link <target>" is one match.
  lemma ExternalUrlMatchOn(ws1: string, ws2: string, target: string, v: string, x: string, r: string)
    requires |ws1| > 0 && AllIn(ws1, IsSpace) && |ws2| > 0 && AllIn(ws2, IsSpace)
    requires |target| > 0 && AllIn(target, NotSpace) && (v == [] || IsSpace(v[0]))
    requires x == "*" + ws1 + "@link" + ws2 + target && r == "*" + ws1 + "@externalurl" + ws2 + target
    ensures ExternalUrlMatch(x + v) == Some(Scan.Hit(|x|, r))
  {
    var pre := "*" + ws1;
    var arg := ws2 + target;
    var t := pre + "@link" + (arg + v);
    assert t == x + v;
    var a := |pre|;
    var c := a + 5 + |ws2|;
    var e := c + |target|;
    Middle(pre, "@link", arg + v);
    assert t[..a] == pre;
    assert t[a + 5..] == arg + v;
    StarOn(t, pre, ws1, a);
    LinkOn(t, a, c, e, ws2, target, v);
    Regroup("*", ws1, "@link", ws2, target);
    Regroup("*", ws1, "@externalurl", ws2, target);
    TargetOn(t, a, c, e, pre, arg, v, x, r);
  }

  // Group 1 of line 164: the "*" and the whitespace after it.
  lemma StarOn(t: string, pre: string, ws1: string, a: nat)
    requires |ws1| > 0 && AllIn(ws1, IsSpace) && pre == "*" + ws1 && a == |pre|
    requires a + 5 <= |t| && t[..a] == pre && t[a..a + 5] == "@link"
    ensures ExternalUrlMatch(t) == LinkAfter(t, a)
  {
    assert t[0] == pre[0] && t[1] == ws1[0] && t[a] == '@';
    SpanEndOver(t, 1, a, ws1, IsSpace) by { assert t[1..a] == pre[1..]; }
  }

  // "@link" and the whitespace after it.
  lemma LinkOn(t: string, a: nat, c: nat, e: nat, ws2: string, target: string, v: string)
    requires |ws2| > 0 && AllIn(ws2, IsSpace) && |target| > 0 && AllIn(target, NotSpace)
    requires a + 5 <= |t| && t[a..a + 5] == "@link"
    requires c == a + 5 + |ws2| && e == c + |target| && t[a + 5..] == ws2 + target + v
    requires v == [] || IsSpace(v[0])
    ensures c < e <= |t| && LinkAfter(t, a) == TargetAfter(t, a, c) && SpanEnd(t, c, NotSpace) == e
  {
    assert StartsWith(t[a..], "@link") by { assert t[a..][..5] == t[a..a + 5]; }
    UrlArgument(t, a + 5, c, e, ws2, target, v);
  }

  // The replacement of a whole match, put back together.
  lemma TargetOn(t: string, a: nat, c: nat, e: nat, pre: string, arg: string, v: string, x: string, r: string)
    requires a + 5 <= c < e <= |t| && SpanEnd(t, c, NotSpace) == e
    requires t == pre + "@link" + (arg + v) && a == |pre| && e == a + 5 + |arg|
    requires x == pre + "@link" + arg && r == pre + "@externalurl" + arg
    ensures TargetAfter(t, a, c) == Some(Scan.Hit(|x|, r))
  {
    Middle(pre, "@link", arg + v);
    assert t[..a] == pre;
    assert t[a + 5..e] == arg by { assert t[a + 5..e] == (arg + v)[..|arg|]; }
  }

  // The whitespace and the target after "@link": the group `(\s+\S+)`.
  lemma UrlArgument(t: string, b: nat, c: nat, e: nat, ws2: string, target: string, v: string)
    requires |ws2| > 0 && AllIn(ws2, IsSpace) && |target| > 0 && AllIn(target, NotSpace)
    requires b <= |t| && c == b + |ws2| && e == c + |target| && t[b..] == ws2 + target + v
    requires v == [] || IsSpace(v[0])
    ensures b < |t| && IsSpace(t[b]) && SpanEnd(t, b, IsSpace) == c && c < |t| && SpanEnd(t, c, NotSpace) == e
  {
    var w := t[b..];
    Middle(ws2, target, v);
    assert w[..|ws2|] == ws2;
    assert e <= |t|;
    assert t[b..c] == ws2 by { assert t[b..c] == w[..|ws2|]; }
    assert t[c..e] == target by { assert t[c..e] == w[|ws2|..|ws2| + |target|]; }
    assert t[b] == ws2[0] && t[c] == target[0];
    SpanEndOver(t, b, c, ws2, IsSpace);
    assert e < |t| ==> t[e] == v[0] by { if e < |t| { assert t[e] == w[e - b]; } }
    SpanEndOver(t, c, e, target, NotSpace);
  }

  /**
    * Line 164's pattern with its groups' ends: a "*", whitespace up to `a`, "@link" at
    * `a`, whitespace up to `c` and a non-space character at `c`.
    */
  predicate UrlTagAt(t: string, a: nat, c: nat) {
    1 < a && a + 5 < c < |t| && t[0] == '*' && Within(t, 1, a, IsSpace) &&
    t[a..a + 5] == "@link" && Within(t, a + 5, c, IsSpace) && !IsSpace(t[c])
  }

  /** The pattern matches exactly where a "*", whitespace, "@link" and a target stand. */
  lemma ExternalUrlFires(t: string)
    ensures Scan.Fires(ExternalUrlMatch, t) <==> exists a: nat, c: nat :: UrlTagAt(t, a, c)
  {
    if Scan.Fires(ExternalUrlMatch, t) {
      var a := SpanEnd(t, 1, IsSpace);
      assert t[a..][..5] == t[a..a + 5];
      var c := SpanEnd(t, a + 5, IsSpace);
      assert UrlTagAt(t, a, c);
    }
    if a: nat, c: nat :| UrlTagAt(t, a, c) {
      assert t[a] == t[a..a + 5][0] == '@';
      SpanAt(t, 1, a, IsSpace);
      assert t[a..][..5] == t[a..a + 5];
      SpanAt(t, a + 5, c, IsSpace);
    }
  }

  /**
    * At the leftmost match, a block-level `@link <target>` after a docblock's "*" becomes
    * `@externalurl <target>`.
    */
  lemma ExternalUrlRenamed(u: string, ws1: string, ws2: string, target: string, v: string)
    requires Scan.NoHitBefore(ExternalUrlMatch, u + "*" + ws1 + "@link" + ws2 + target + v, |u|)
    requires |ws1| > 0 && AllIn(ws1, IsSpace) && |ws2| > 0 && AllIn(ws2, IsSpace)
    requires |target| > 0 && AllIn(target, NotSpace) && (v == [] || IsSpace(v[0]))
    ensures LinksToExternalUrls(u + "*" + ws1 + "@link" + ws2 + target + v) ==
            u + "*" + ws1 + "@externalurl" + ws2 + target + LinksToExternalUrls(v)
  {
    var x := "*" + ws1 + "@link" + ws2 + target;
    var r := "*" + ws1 + "@externalurl" + ws2 + target;
    Nest(u, "*", ws1, "@link", ws2, target);
    ExternalUrlMatchOn(ws1, ws2, target, v, x, r);
    Scan.HitAfter(ExternalUrlMatch, u, x, v, r);
    Nest(u, "*", ws1, "@externalurl", ws2, target);
  }

  // Every match of line 164's pattern starts with "*".
  lemma QuietWithoutStar(s: string, k: nat)
    requires forall i :: 0 <= i < k && i < |s| ==> s[i] != '*'
    ensures Scan.NoHitBefore(ExternalUrlMatch, s, k)
  {
    forall t | Scan.Fires(ExternalUrlMatch, t) ensures t[0] == '*' { }
    Scan.QuietWithoutLead(ExternalUrlMatch, c => c == '*', s, k);
  }

  /** Without "*" the rewrite changes nothing: inline `{@link}` tags are not its business. */
  lemma NoStarUnchanged(s: string)
    requires '*' !in s
    ensures LinksToExternalUrls(s) == s
  {
    QuietWithoutStar(s, |s|);
    Scan.NoHitUnchanged(ExternalUrlMatch, s);
  }

  // ---------------------------------------------------------------------------

  /** Every match of line 152's pattern starts with '@'. */
  lemma AccessQuiet(u: string, x: string, v: string)
    requires '@' !in u
    ensures Scan.NoHitBefore(AccessMatch, u + x + v, |u|)
  {
    forall t | Scan.Fires(AccessMatch, t) ensures t[0] == '@' { LeadOf(t, "@access"); }
    Scan.QuietWithoutLead(AccessMatch, c => c == '@', u + x + v, |u|);
  }
}
