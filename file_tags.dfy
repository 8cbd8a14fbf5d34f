/**
  * The first two rewrites (phpdocs/doxygen-filter.php, lines 63-74): give the first
  * docblock an `@file` tag when no docblock line has one, and delete every `@name` tag.
  */
module FileTags {
  import opened Wrappers
  import opened Text
  import Scan

  // ---------------------------------------------------------------------------
  // Lines 63-68. The test pattern is `#/\*\*(.*)@file#`; when it matches nowhere, the
  // first match of `#/\*\*(.*)#` (limit 1) is replaced by "/**", group 1, " @file " and the path.

  // The test pattern matches at the start of `t`: "/**" and, later on that line, "@file".
  predicate FileTagAt(t: string) {
    StartsWith(t, "/**") && FindOnLine(t, "@file", 3).Some?
  }

  /** `preg_match('#/\*\*(.*)@file#', source) !== 0`. */
  function HasFileTag(s: string): bool {
    Scan.Anywhere(FileTagAt, s)
  }

  // "/**" at `i` and "@file" at `k`, on the same line.
  ghost predicate FileTagMatch(s: string, i: int, k: int) {
    0 <= i && i + 3 <= k <= |s| && StartsWith(s[i..], "/**") && StartsWith(s[k..], "@file") &&
    NoNewline(s, i + 3, k)
  }

  // Appends " @file <path>" to the line that holds the first "/**", unless some line
  // already has "/**" followed by "@file". The greedy `(.*)` of the replaced pattern runs
  // to the end of that line.
  function AddFileTag(s: string, path: string): string {
    if HasFileTag(s) then s
    else
      match Find(s, "/**", 0)
      case None => s
      case Some(i) =>
        var e := SpanEnd(s, i + 3, NotNewline);
        s[..e] + " @file " + path + s[e..]
  }

  // The test holds exactly when some line has "/**" followed later on it by "@file".
  lemma FileTagSpec(s: string)
    ensures HasFileTag(s) <==> exists i, k :: FileTagMatch(s, i, k)
  {
    if HasFileTag(s) {
      var i :| 0 <= i <= |s| && FileTagAt(s[i..]);
      var t := s[i..];
      var k := FindOnLine(t, "@file", 3).value;
      assert t[k..] == s[i + k..];
      assert NoNewline(s, i + 3, i + k) by {
        forall x | i + 3 <= x < i + k && x < |s| ensures s[x] != '\n' {
          assert s[x] == t[x - i];
        }
      }
      assert FileTagMatch(s, i, i + k);
    }
    if exists i, k :: FileTagMatch(s, i, k) {
      var i, k :| FileTagMatch(s, i, k);
      var t := s[i..];
      assert t[k - i..] == s[k..];
      assert NoNewline(t, 3, k - i) by {
        forall x | 3 <= x < k - i && x < |t| ensures t[x] != '\n' {
          assert t[x] == s[x + i];
        }
      }
      assert FileTagAt(t);
    }
  }

  // With no "@file" after "/**" on any line, the tag and the path are appended to the end
  // of the line of the first "/**", and nothing else changes.
  lemma FileTagInserted(s: string, path: string, i: nat, e: nat)
    requires !exists i, k :: FileTagMatch(s, i, k)
    requires i + 3 <= e <= |s| && StartsWith(s[i..], "/**")
    requires forall k :: 0 <= k < i ==> !StartsWith(s[k..], "/**")
    requires NoNewline(s, i + 3, e) && (e == |s| || s[e] == '\n')
    ensures AddFileTag(s, path) == s[..e] + " @file " + path + s[e..]
  {
    FileTagSpec(s);
    var f := Find(s, "/**", 0);
    assert f == Some(i);
    SpanEndIs(s, i + 3, e, NotNewline);
  }

  /** A text that already has an `@file` line, or has no docblock at all, is left unchanged. */
  lemma FileTagKept(s: string, path: string)
    requires (exists i, k :: FileTagMatch(s, i, k)) || forall i :: 0 <= i <= |s| ==> !StartsWith(s[i..], "/**")
    ensures AddFileTag(s, path) == s
  {
    FileTagSpec(s);
  }

  // ---------------------------------------------------------------------------
  // Lines 72-74: `#@name\s+.*#` replaced by nothing. The greedy `\s+` may cross line
  // feeds; `.*` then takes the rest of the line it stops on.

  /** "@name" followed by whitespace: where line 72's pattern matches. */
  predicate NameTagAt(t: string) {
    StartsWith(t, "@name") && 5 < |t| && IsSpace(t[5])
  }

  /** The matcher of line 72: the tag, its whitespace and the rest of that line, replaced by nothing. */
  function NameMatch(t: string): Option<Scan.Hit> {
    if NameTagAt(t) then
      var b := SpanEnd(t, 5, IsSpace);
      Some(Scan.Hit(SpanEnd(t, b, NotNewline), ""))
    else None
  }

  /** `preg_replace('#@name\s+.*#', '', source)`. */
  function StripNameTags(s: string): string {
    Scan.ReplaceAll(NameMatch, s)
  }

  /** Line 72's pattern matches exactly where "@name" and whitespace stand. */
  lemma NameFires(t: string)
    ensures Scan.Fires(NameMatch, t) <==> NameTagAt(t)
  {
    if NameTagAt(t) {
      var b := SpanEnd(t, 5, IsSpace);
      assert 5 < b;
    }
  }

  /**
    * At the leftmost match, the tag, its whitespace and its value up to the end of the
    * line are deleted; the text before it is kept.
    */
  lemma NameTagRemoved(u: string, x: string, ws: string, value: string, v: string)
    requires Scan.NoHitBefore(NameMatch, u + x + v, |u|)
    requires |ws| > 0 && AllIn(ws, IsSpace)
    requires '\n' !in value && (value == [] ==> v == []) && (value != [] ==> !IsSpace(value[0]))
    requires v == [] || v[0] == '\n'
    requires x == "@name" + ws + value
    ensures StripNameTags(u + x + v) == u + StripNameTags(v)
  {
    NameMatchOn(x, ws, value, v);
    Scan.HitAfter(NameMatch, u, x, v, "");
  }

  /** Where "@name" starts nowhere before the tag, the tag is the leftmost match and is removed. */
  lemma NameTagRemovedAfter(u: string, ws: string, value: string, v: string)
    requires NotStartedIn(u, "@name")
    requires |ws| > 0 && AllIn(ws, IsSpace)
    requires '\n' !in value && (value == [] ==> v == []) && (value != [] ==> !IsSpace(value[0]))
    requires v == [] || v[0] == '\n'
    ensures StripNameTags(u + ("@name" + ws + value) + v) == u + StripNameTags(v)
  {
    var x := "@name" + ws + value;
    forall t | Scan.Fires(NameMatch, t) ensures StartsWith(t, "@name") { NameFires(t); }
    Scan.QuietBeforeLiteral(NameMatch, "@name", u, x + v);
    assert u + (x + v) == u + x + v;
    NameTagRemoved(u, x, ws, value, v);
  }

  /** Line 72's pattern consumes the tag, all the whitespace after it and the rest of that line. */
  lemma NameMatchOn(x: string, ws: string, value: string, v: string)
    requires |ws| > 0 && AllIn(ws, IsSpace)
    requires '\n' !in value && (value == [] ==> v == []) && (value != [] ==> !IsSpace(value[0]))
    requires v == [] || v[0] == '\n'
    requires x == "@name" + ws + value
    ensures NameMatch(x + v) == Some(Scan.Hit(|x|, ""))
  {
    var t := x + v;
    var b := 5 + |ws|;
    var e := b + |value|;
    assert StartsWith(t, "@name") && Within(t, 5, b, IsSpace) by { WithinOf(t, "@name", ws, value + v, IsSpace); }
    assert Within(t, b, e, NotNewline) by {
      WithinOf(t, "@name" + ws, value, v, NotNewline);
      assert AllIn(value, NotNewline);
    }
    assert e < |t| ==> t[e] == '\n' by { assert t[e..] == v; }
    assert b < |t| ==> !IsSpace(t[b]) by { assert b < e ==> t[b] == value[0]; }
    SpanAt(t, 5, b, IsSpace);
    SpanAt(t, b, e, NotNewline);
  }

  /** A text where no tag "@name" is followed by whitespace is left unchanged. */
  lemma NoNameTagUnchanged(s: string)
    requires forall i :: 0 <= i < |s| ==> !NameTagAt(s[i..])
    ensures StripNameTags(s) == s
  {
    Scan.NoHitUnchanged(NameMatch, s);
  }
}
