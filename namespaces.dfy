/**
  * The three rewrites about PHP namespaces (phpdocs/doxygen-filter.php, lines 103-123):
  * every `namespace X;` statement gets a Doxygen `@namespace` comment, a backslash that
  * follows whitespace or a pipe is deleted, and on comment lines the first backslashed
  * word is written with the scope separator `::`.
  */
module Namespaces {
  import opened Wrappers
  import opened Text
  import Scan

  // ---------------------------------------------------------------------------
  // Lines 103-107: `#namespace\s+(.*?);#`, each match followed by the comment
  // " /** @namespace <group 1 with :: for \> &nbsp;*/".
  //
  // The greedy `\s+` takes the whole whitespace run first, and the lazy group then stops
  // at the first ";" of the line. When that line has no ";", a shorter `\s+` does not
  // help: the group would start on whitespace of the same line, or would have to cross
  // a line feed, which `.` does not.

  /** The comment that follows a namespace statement whose name is `name`. */
  function Annotation(name: string): (c: string)
    ensures '\\' !in c
  {
    " /** @namespace " + ScopeSeparators(name) + " &nbsp;*/"
  }

  /** The matcher of line 103: the whole statement, kept, and its comment after it. */
  function NamespaceMatch(t: string): Option<Scan.Hit> {
    if StartsWith(t, "namespace") && 9 < |t| && IsSpace(t[9]) then
      var b := SpanEnd(t, 9, IsSpace);
      match FindOnLine(t, ";", b)
      case None => None
      case Some(j) => Some(Scan.Hit(j + 1, t[..j + 1] + Annotation(t[b..j])))
    else None
  }

  /** `preg_replace_callback('#namespace\s+(.*?);#', ...)` with the callback of lines 104-107. */
  function Annotate(s: string): string {
    Scan.ReplaceAll(NamespaceMatch, s)
  }

  // A semicolon is the literal ";" and nothing else is.
  lemma SemicolonAt(t: string, k: nat)
    requires k < |t|
    ensures StartsWith(t[k..], ";") <==> t[k] == ';'
  {
    assert t[k..][..1] == [t[k]];
  }

  /** A statement `namespace <ws><name>;` is one match, kept and followed by its comment. */
  lemma NamespaceMatchOn(ws: string, name: string, v: string, x: string)
    requires |ws| > 0 && AllIn(ws, IsSpace)
    requires ';' !in name && '\n' !in name && (name == [] || !IsSpace(name[0]))
    requires x == "namespace" + ws + name + ";"
    ensures NamespaceMatch(x + v) == Some(Scan.Hit(|x|, x + Annotation(name)))
  {
    var pre := "namespace" + ws;
    var t := x + v;
    var b := |pre|;
    var j := b + |name|;
    assert t[..|x|] == x;
    Middle(pre, name, ";");
    assert t[b..j] == name by { assert t[b..j] == x[b..j]; }
    assert t[j] == ';' by { assert t[j] == x[j]; }
    assert t[..9] == "namespace" by { assert t[..9] == x[..9] == pre[..9]; }
    assert t[9..b] == ws by { assert t[9..b] == x[9..b] == pre[9..]; }
    assert t[9] == ws[0] && (name == [] || t[b] == name[0]);
    SpanEndOver(t, 9, b, ws, IsSpace);
    forall k | b <= k < j ensures !StartsWith(t[k..], ";") && t[k] != '\n' {
      assert t[k] == t[b..j][k - b];
      SemicolonAt(t, k);
    }
    SemicolonAt(t, j);
    FindOnLineAt(t, ";", b, j);
    StatementOn(t, b, j, x, name);
  }

  // The match once its whitespace run and its ";" are known.
  lemma StatementOn(t: string, b: nat, j: nat, x: string, name: string)
    requires StartsWith(t, "namespace") && 9 < |t| && IsSpace(t[9]) && 9 <= b <= j < |t|
    requires SpanEnd(t, 9, IsSpace) == b && FindOnLine(t, ";", b) == Some(j)
    requires t[..j + 1] == x && t[b..j] == name
    ensures NamespaceMatch(t) == Some(Scan.Hit(|x|, x + Annotation(name)))
  {
  }

  /**
    * Each `namespace X;` statement is kept verbatim and followed by the comment that
    * gives `X` with `::` for every backslash; the scan resumes after the ";".
    */
  lemma NamespaceAnnotated(u: string, ws: string, name: string, v: string, x: string)
    requires NotStartedIn(u, "namespace")
    requires |ws| > 0 && AllIn(ws, IsSpace)
    requires ';' !in name && '\n' !in name && (name == [] || !IsSpace(name[0]))
    requires x == "namespace" + ws + name + ";"
    ensures Annotate(u + x + v) == u + x + Annotation(name) + Annotate(v)
  {
    NamespaceQuiet(u, x + v);
    assert u + (x + v) == u + x + v;
    NamespaceMatchOn(ws, name, v, x);
    var c := Annotation(name);
    Scan.HitAfter(NamespaceMatch, u, x, v, x + c);
    Glue(Annotate(u + x + v), u, x, c, Annotate(v));
  }

  // No match starts inside a prefix in which the keyword does not start.
  lemma NamespaceQuiet(u: string, w: string)
    requires NotStartedIn(u, "namespace") && StartsWith(w, "namespace")
    ensures Scan.NoHitBefore(NamespaceMatch, u + w, |u|)
  {
    NotStartedBefore(u, w, "namespace");
  }

  /** A statement with no ";" on the line where its name starts gets no comment. */
  lemma UnterminatedKept(ws: string, line: string, v: string)
    requires |ws| > 0 && AllIn(ws, IsSpace) && (line == [] || !IsSpace(line[0]))
    requires ';' !in line && '\n' !in line && (v == [] || v[0] == '\n')
    requires line == [] ==> v == []
    ensures NamespaceMatch("namespace" + ws + line + v) == None
  {
    var pre := "namespace" + ws;
    var t := pre + line + v;
    var b := |pre|;
    var n := b + |line|;
    Middle(pre, line, v);
    assert t[..9] == "namespace" by { assert t[..9] == pre[..9]; }
    assert t[9..b] == ws by { assert t[9..b] == pre[9..]; }
    assert t[9] == ws[0];
    assert b < |t| ==> t[b] == line[0];
    SpanEndOver(t, 9, b, ws, IsSpace);
    forall k | b <= k <= |t| && NoNewline(t, b, k) ensures !StartsWith(t[k..], ";") {
      if k < n {
        assert t[k] == line[k - b];
        SemicolonAt(t, k);
      } else if k < |t| {
        assert t[n] == '\n';
        SemicolonAt(t, k);
      }
    }
    FindOnLineNone(t, ";", b);
  }

  /** A text in which "namespace" and whitespace never stand together is left unchanged. */
  lemma NoNamespaceUnchanged(s: string)
    requires forall i :: 0 <= i < |s| ==> !(StartsWith(s[i..], "namespace") && i + 9 < |s| && IsSpace(s[i + 9]))
    ensures Annotate(s) == s
  {
    forall i | 0 <= i < |s| ensures !Scan.Fires(NamespaceMatch, s[i..]) {
      if i + 9 < |s| { assert s[i..][9] == s[i + 9]; }
    }
    Scan.NoHitUnchanged(NamespaceMatch, s);
  }

  // ---------------------------------------------------------------------------
  // Lines 111-113: `#(\s+|\|)\\\\#` replaced by group 1, deleting the backslash.
  //
  // Where whitespace starts, only the whole run can be followed by the backslash: a
  // shorter run is followed by more whitespace. A run that the backslash does not follow
  // leaves the second alternative nothing, since the run does not start with "|".

  /** The matcher of line 111: whitespace or a pipe, then a backslash, which is dropped. */
  function EscapeMatch(t: string): Option<Scan.Hit> {
    if |t| > 0 && IsSpace(t[0]) then
      var b := SpanEnd(t, 0, IsSpace);
      if b < |t| && t[b] == '\\' then Some(Scan.Hit(b + 1, t[..b])) else None
    else if StartsWith(t, "|\\") then Some(Scan.Hit(2, "|"))
    else None
  }

  /** `preg_replace('#(\s+|\|)\\\\#', '${1}', source)`. */
  function StripEscapes(s: string): string {
    Scan.ReplaceAll(EscapeMatch, s)
  }

  /** Whitespace and the pipe: the characters after which a backslash is deleted. */
  predicate EscapesNext(c: char) { IsSpace(c) || c == '|' }

  /**
    * The deletion said character by character: a backslash goes when the character
    * before it in the text is whitespace or a pipe (`after` tells whether it is), every
    * other character stays.
    */
  function DropEscapes(s: string, after: bool): (r: string)
    ensures |r| <= |s|
    decreases |s|
  {
    if s == [] then []
    else if s[0] == '\\' && after then DropEscapes(s[1..], false)
    else [s[0]] + DropEscapes(s[1..], EscapesNext(s[0]))
  }

  /** The deletion on a whole text, whose first character nothing precedes. */
  function Unescaped(s: string): string {
    DropEscapes(s, false)
  }

  /** The text without any backslash: what the deletion must not change. */
  function WithoutBackslashes(s: string): (r: string)
    ensures '\\' !in r
    ensures '\\' !in s ==> r == s
  {
    if s == [] then [] else (if s[0] == '\\' then [] else [s[0]]) + WithoutBackslashes(s[1..])
  }

  // A run of whitespace is copied, and what follows it comes after whitespace.
  lemma {:induction false} DropAcrossSpace(s: string, e: nat, after: bool)
    requires 0 < e <= |s| && forall k :: 0 <= k < e ==> IsSpace(s[k])
    ensures DropEscapes(s, after) == s[..e] + DropEscapes(s[e..], true)
    decreases e
  {
    assert DropEscapes(s, after) == [s[0]] + DropEscapes(s[1..], true) by {
      assert s[0] != '\\' && EscapesNext(s[0]) by { assert IsSpace(s[0]); }
    }
    if e > 1 {
      assert forall k :: 0 <= k < e - 1 ==> IsSpace(s[1..][k]) by {
        forall k | 0 <= k < e - 1 ensures IsSpace(s[1..][k]) { assert s[1..][k] == s[k + 1]; }
      }
      DropAcrossSpace(s[1..], e - 1, true);
      assert s[1..][e - 1..] == s[e..];
      assert s[..e] == [s[0]] + s[1..][..e - 1];
      Reassoc(DropEscapes(s, after), [s[0]], s[1..][..e - 1], DropEscapes(s[e..], true));
    } else {
      assert s[..1] == [s[0]] && s[1..] == s[e..];
    }
  }

  // The scan agrees with the character-by-character deletion wherever it can stand: a
  // suffix that starts with a backslash after whitespace or a pipe is never one.
  lemma {:induction false} StripsAsDropped(s: string, after: bool)
    requires s == [] || s[0] != '\\' || !after
    ensures StripEscapes(s) == DropEscapes(s, after)
    decreases |s|
  {
    if s == [] {
    } else if |s| > 0 && IsSpace(s[0]) {
      var b := SpanEnd(s, 0, IsSpace);
      DropAcrossSpace(s, b, after);
      if b < |s| && s[b] == '\\' {
        assert Scan.Fires(EscapeMatch, s);
        assert s[b..][1..] == s[b + 1..];
        assert DropEscapes(s[b..], true) == DropEscapes(s[b + 1..], false);
        StripsAsDropped(s[b + 1..], false);
      } else {
        assert !Scan.Fires(EscapeMatch, s);
        assert DropEscapes(s, after) == [s[0]] + DropEscapes(s[1..], true);
        assert |s| > 1 ==> s[1] != '\\' by {
          if |s| > 1 && b <= 1 { assert b == 1; }
        }
        StripsAsDropped(s[1..], true);
      }
    } else if StartsWith(s, "|\\") {
      assert s[0] == '|' && s[1] == '\\' by { assert s[..2] == "|\\"; }
      assert Scan.Fires(EscapeMatch, s);
      assert s[1..][1..] == s[2..];
      StripsAsDropped(s[2..], false);
    } else {
      assert !Scan.Fires(EscapeMatch, s);
      assert s[0] == '|' && |s| > 1 ==> s[1] != '\\' by {
        if |s| > 1 { assert s[..2] == [s[0], s[1]]; }
      }
      StripsAsDropped(s[1..], EscapesNext(s[0]));
    }
  }

  // Without a backslash there is nothing to delete.
  lemma {:induction false} WithoutBackslashUnescaped(s: string, after: bool)
    requires '\\' !in s
    ensures DropEscapes(s, after) == s
    decreases |s|
  {
    if s != [] {
      assert s[0] != '\\' && '\\' !in s[1..];
      WithoutBackslashUnescaped(s[1..], EscapesNext(s[0]));
      assert [s[0]] + s[1..] == s;
    }
  }

  /** Line 111's rewrite deletes exactly the backslashes that follow whitespace or a pipe. */
  lemma StripEscapesSpec(s: string)
    ensures StripEscapes(s) == Unescaped(s)
  {
    StripsAsDropped(s, false);
  }

  /** The deletion removes backslashes and nothing else, in place. */
  lemma {:induction false} DropsOnlyBackslashes(s: string, after: bool)
    ensures WithoutBackslashes(DropEscapes(s, after)) == WithoutBackslashes(s)
    decreases |s|
  {
    if s != [] {
      DropsOnlyBackslashes(s[1..], if s[0] == '\\' && after then false else EscapesNext(s[0]));
      if !(s[0] == '\\' && after) {
        var r := [s[0]] + DropEscapes(s[1..], EscapesNext(s[0]));
        assert r[0] == s[0] && r[1..] == DropEscapes(s[1..], EscapesNext(s[0]));
      }
    }
  }

  /** So line 111's rewrite never touches a character that is not a backslash. */
  lemma StripEscapesKeepsText(s: string)
    ensures WithoutBackslashes(StripEscapes(s)) == WithoutBackslashes(s)
    ensures '\\' !in s ==> StripEscapes(s) == s
  {
    StripEscapesSpec(s);
    DropsOnlyBackslashes(s, false);
    if '\\' !in s {
      WithoutBackslashUnescaped(s, false);
    }
  }

  // ---------------------------------------------------------------------------
  // Lines 120-123: `#((\/\/|\*)[^\n\\\\]*)(\\\\\S*)#`, replaced by group 1 and group 3
  // with `::` for every backslash.
  //
  // The run after the comment marker stops at the first line feed or backslash, and only
  // a backslash lets the match go on, so the run is maximal. Neither marker is a prefix
  // of the other, so the first character decides which alternative applies. The
  // backslashed word after it is the maximal run of non-whitespace characters. The scan
  // resumes after that word, so further backslashes on the same line are converted only
  // when another "//" or "*" precedes them there.

  /** A character of comment text before the first backslash: `[^\n\\]`. */
  predicate PlainCommentChar(c: char) { c != '\n' && c != '\\' }

  /** The comment marker at the start of `t`: the length of "//" or "*", or 0. */
  function MarkerLen(t: string): nat {
    if StartsWith(t, "//") then 2 else if StartsWith(t, "*") then 1 else 0
  }

  /** The matcher of line 120: comment text kept, the backslashed word converted. */
  function CommentMatch(t: string): Option<Scan.Hit> {
    var a := MarkerLen(t);
    if a == 0 then None
    else
      var b := SpanEnd(t, a, PlainCommentChar);
      if b < |t| && t[b] == '\\' then
        var e := SpanEnd(t, b + 1, NotSpace);
        Some(Scan.Hit(e, t[..b] + ScopeSeparators(t[b..e])))
      else None
  }

  /** `preg_replace_callback` of line 120 with the callback of lines 121-123. */
  function ConvertComments(s: string): string {
    Scan.ReplaceAll(CommentMatch, s)
  }

  // The two markers of line 120.
  predicate IsMarker(lead: string) { lead == "//" || lead == "*" }

  // The marker found at the start of a match.
  lemma MarkerOn(lead: string, t: string)
    requires IsMarker(lead) && |lead| <= |t| && t[..|lead|] == lead
    ensures MarkerLen(t) == |lead|
  {
    assert t[0] == lead[0];
  }

  /** A comment marker, plain comment text and a backslashed word are one match. */
  lemma CommentMatchOn(lead: string, text: string, word: string, v: string, x: string)
    requires IsMarker(lead) && AllIn(text, PlainCommentChar)
    requires |word| > 0 && word[0] == '\\' && AllIn(word, NotSpace) && (v == [] || IsSpace(v[0]))
    requires x == lead + text + word
    ensures CommentMatch(x + v) == Some(Scan.Hit(|x|, lead + text + ScopeSeparators(word)))
  {
    var pre := lead + text;
    var t := x + v;
    var a := |lead|;
    var b := |pre|;
    var e := |x|;
    assert t[..e] == x;
    assert x[..b] == pre && x[b..] == word;
    assert t[..b] == pre by { assert t[..b] == x[..b]; }
    assert t[..a] == lead by { assert t[..a] == pre[..a]; }
    assert t[a..b] == text by { assert t[a..b] == pre[a..]; }
    assert t[b..e] == word by { assert t[b..e] == x[b..]; }
    assert t[b] == '\\' by { assert t[b] == t[b..e][0]; }
    assert t[b + 1..e] == word[1..] by { assert t[b + 1..e] == t[b..e][1..]; }
    assert e < |t| ==> t[e] == v[0];
    MarkerOn(lead, t);
    SpanEndOver(t, a, b, text, PlainCommentChar);
    SpanEndOver(t, b + 1, e, word[1..], NotSpace);
    CommentOn(t, a, b, e, pre, word);
  }

  // The match once its marker, its text and its word are known.
  lemma CommentOn(t: string, a: nat, b: nat, e: nat, pre: string, word: string)
    requires 0 < a <= b < e <= |t| && MarkerLen(t) == a && SpanEnd(t, a, PlainCommentChar) == b
    requires t[b] == '\\' && SpanEnd(t, b + 1, NotSpace) == e && t[..b] == pre && t[b..e] == word
    ensures CommentMatch(t) == Some(Scan.Hit(e, pre + ScopeSeparators(word)))
  {
  }

  // Every match of line 120's pattern starts with a comment marker.
  lemma CommentLead(t: string)
    requires Scan.Fires(CommentMatch, t)
    ensures t[0] == '/' || t[0] == '*'
  {
    if StartsWith(t, "//") { assert t[0] == t[..2][0]; } else { assert t[0] == t[..1][0]; }
  }

  /**
    * Line 120's pattern with its ends: a marker up to `a`, text without line feed or
    * backslash up to `b`, and a backslash at `b`.
    */
  predicate CommentAt(t: string, a: nat, b: nat) {
    a <= b < |t| && IsMarker(t[..a]) && Within(t, a, b, PlainCommentChar) && t[b] == '\\'
  }

  /** The pattern matches exactly where a marker and a backslash on the same line stand. */
  lemma CommentFires(t: string)
    ensures Scan.Fires(CommentMatch, t) <==> exists a: nat, b: nat :: CommentAt(t, a, b)
  {
    if Scan.Fires(CommentMatch, t) {
      var a := MarkerLen(t);
      var b := SpanEnd(t, a, PlainCommentChar);
      assert CommentAt(t, a, b);
    }
    if a: nat, b: nat :| CommentAt(t, a, b) {
      MarkerOn(t[..a], t);
      SpanAt(t, a, b, PlainCommentChar);
    }
  }

  /**
    * At the leftmost match, the text after the marker is kept and the first backslashed
    * word is written with `::`; the scan resumes after that word.
    */
  lemma CommentConverted(u: string, lead: string, text: string, word: string, v: string, x: string)
    requires Scan.NoHitBefore(CommentMatch, u + x + v, |u|)
    requires IsMarker(lead) && AllIn(text, PlainCommentChar)
    requires |word| > 0 && word[0] == '\\' && AllIn(word, NotSpace) && (v == [] || IsSpace(v[0]))
    requires x == lead + text + word
    ensures ConvertComments(u + x + v) == u + lead + text + ScopeSeparators(word) + ConvertComments(v)
  {
    var c := ScopeSeparators(word);
    CommentMatchOn(lead, text, word, v, x);
    Scan.HitAfter(CommentMatch, u, x, v, lead + text + c);
    assert ConvertComments(u + x + v) == u + (lead + text + c) + ConvertComments(v);
    Nest3(u, lead, text, c);
  }

  /** A match keeps to one line up to its first backslash, and starts with '/' or '*'. */
  lemma CommentLine(t: string)
    requires Scan.Fires(CommentMatch, t)
    ensures t[0] == '/' || t[0] == '*'
    ensures exists j :: 0 < j < |t| && t[j] == '\\' && NoNewline(t, 0, j)
  {
    CommentLead(t);
    CommentFires(t);
    var a: nat, b: nat :| CommentAt(t, a, b);
    assert forall k :: 0 <= k < a ==> t[k] == t[..a][k];
  }

  /** No match starts before a line feed at `n` and the character after it, when neither is '/' or '*'. */
  lemma QuietBeforeLine(p: string, w: string, n: nat)
    requires '\\' !in p && n + 1 < |p| && p[n] == '\n' && p[n + 1] != '/' && p[n + 1] != '*'
    ensures Scan.NoHitBefore(CommentMatch, p + w, n + 2)
  {
    var s := p + w;
    forall i | 0 <= i < n + 2 && i <= |s| ensures !Scan.Fires(CommentMatch, s[i..]) {
      if i == n + 1 {
        assert s[i..][0] == p[n + 1];
        if Scan.Fires(CommentMatch, s[i..]) { CommentLead(s[i..]); }
      } else {
        QuietAcrossLine(s, i, n, |p|);
      }
    }
  }

  // A match cannot reach a backslash past the line feed at `n`.
  lemma QuietAcrossLine(s: string, i: nat, n: nat, m: nat)
    requires i <= n < m <= |s| && s[n] == '\n' && forall k :: 0 <= k < m ==> s[k] != '\\'
    ensures !Scan.Fires(CommentMatch, s[i..])
  {
    if Scan.Fires(CommentMatch, s[i..]) {
      var t := s[i..];
      CommentLine(t);
    }
  }

  /** The replacement of a match starts with the matched text up to its backslash. */
  lemma CommentKeepsText(t: string)
    requires Scan.Fires(CommentMatch, t)
    ensures exists b, w :: 0 < b < |t| && t[b] == '\\' && CommentMatch(t).value.repl == t[..b] + w
  {
    var a := MarkerLen(t);
    assert a != 0;
    var b := SpanEnd(t, a, PlainCommentChar);
    assert b < |t| && t[b] == '\\';
    var e := SpanEnd(t, b + 1, NotSpace);
    var w := ScopeSeparators(t[b..e]);
    assert CommentMatch(t).value.repl == t[..b] + w;
  }

  /** The rewrite keeps a prefix without backslashes: every match keeps its text up to the backslash. */
  lemma {:induction false} ConvertKeepsPrefix(p: string, q: string)
    requires '\\' !in p
    ensures exists r :: ConvertComments(p + q) == p + r
    decreases |p|
  {
    var s := p + q;
    if p == [] {
      assert s == q && p + ConvertComments(q) == ConvertComments(q);
    } else if Scan.Fires(CommentMatch, s) {
      FiredKeepsPrefix(p, q);
    } else {
      ConvertKeepsPrefix(p[1..], q);
      var r :| ConvertComments(p[1..] + q) == p[1..] + r;
      Scan.QuietKeepsPrefix(CommentMatch, p, q, r);
    }
  }

  // A match at the start keeps the prefix.
  lemma FiredKeepsPrefix(p: string, q: string)
    requires '\\' !in p && Scan.Fires(CommentMatch, p + q)
    ensures exists r :: ConvertComments(p + q) == p + r
  {
    var s := p + q;
    CommentKeepsText(s);
    var b, w :| 0 < b < |s| && s[b] == '\\' && CommentMatch(s).value.repl == s[..b] + w;
    KeptPrefix(p, q, b);
    assert s[..|p|] == p;
    Scan.FireKeepsPrefix(CommentMatch, s, |p|, b, w);
  }

  // The text before a backslash holds the whole prefix without backslashes.
  lemma KeptPrefix(p: string, q: string, b: nat)
    requires '\\' !in p && b < |p + q| && (p + q)[b] == '\\'
    ensures |p| <= b && (p + q)[..b] == p + (p + q)[|p|..b]
  {
  }

  /** Every match holds a backslash, so a text without one is left unchanged. */
  lemma NoBackslashUnconverted(s: string)
    requires '\\' !in s
    ensures ConvertComments(s) == s
  {
    forall i | 0 <= i < |s| ensures !Scan.Fires(CommentMatch, s[i..]) {
      var t := s[i..];
      assert forall k :: 0 <= k < |t| ==> t[k] != '\\';
    }
    Scan.NoHitUnchanged(CommentMatch, s);
  }
}
