/**
  * The whole filter, phpdocs/doxygen-filter.php: the gatekeeper, then the fourteen
  * rewrites in the order the script applies them to its one `$source` variable. What
  * the script echoes is the output; what it sends to the error log is the notice.
  */
module Filter {
  import opened Wrappers
  import opened Text
  import Scan
  import Gatekeeper
  import FileTags
  import VarSplice
  import TagRenames
  import Namespaces
  import PackageGroup
  import Links
  import Traits

  /** What one run of the script produces: the text it prints and the notice it logs, if any. */
  datatype Outcome = Outcome(output: string, notice: Option<string>)

  /** Lines 63-190: the rewrites, each applied to the result of the one before. */
  function Rewrite(path: string, source: string): string {
    var s1 := FileTags.AddFileTag(source, path);
    var s2 := FileTags.StripNameTags(s1);
    var s3 := VarSplice.SpliceVarTypes(s2);
    var s4 := TagRenames.RenameReturns(s3);
    var s5 := Namespaces.Annotate(s4);
    var s6 := Namespaces.StripEscapes(s5);
    var s7 := Namespaces.ConvertComments(s6);
    var s8 := PackageGroup.WrapInGroup(s7);
    var s9 := TagRenames.PackagesToGroups(s8);
    var s10 := TagRenames.AccessToTags(s9);
    var s11 := Links.LinkTrackerCodes(s10);
    var s12 := TagRenames.LinksToExternalUrls(s11);
    var s13 := Links.ExpandInlineLinks(s12);
    Traits.RenameTrait(s13)
  }

  /**
    * The script on the file at `path` whose text is `source`: a skipped file prints
    * nothing and logs why; any other file prints its rewritten text and logs nothing.
    */
  function Filter(path: string, source: string): (o: Outcome)
    ensures o.notice.Some? ==> o.output == ""
    ensures o.notice.None? <==> Gatekeeper.Check(path, source).None?
  {
    match Gatekeeper.Check(path, source)
    case Some(r) => Outcome("", Some(Gatekeeper.Notice(path, r)))
    case None => Outcome(Rewrite(path, source), None)
  }

  /**
    * The script as it runs: the three checks in turn, each ending the run on a match,
    * then one assignment to the text per rewrite.
    */
  method Run(path: string, source: string) returns (output: string, notice: Option<string>)
    ensures Outcome(output, notice) == Filter(path, source)
  {
    if Gatekeeper.IsLangPath(path) {
      return "", Some(Gatekeeper.Notice(path, Gatekeeper.LangFile));
    }
    if Gatekeeper.DefinesCliScript(source) {
      return "", Some(Gatekeeper.Notice(path, Gatekeeper.CliScript));
    }
    if Gatekeeper.IncludesConfig(source) {
      return "", Some(Gatekeeper.Notice(path, Gatekeeper.FrontEndScript));
    }
    var s := source;
    s := FileTags.AddFileTag(s, path);
    s := FileTags.StripNameTags(s);
    s := VarSplice.SpliceVarTypes(s);
    s := TagRenames.RenameReturns(s);
    s := Namespaces.Annotate(s);
    s := Namespaces.StripEscapes(s);
    s := Namespaces.ConvertComments(s);
    s := PackageGroup.WrapInGroup(s);
    s := TagRenames.PackagesToGroups(s);
    s := TagRenames.AccessToTags(s);
    s := Links.LinkTrackerCodes(s);
    s := TagRenames.LinksToExternalUrls(s);
    s := Links.ExpandInlineLinks(s);
    s := Traits.RenameTrait(s);
    output, notice := s, None;
  }

  // The three notices differ, so a notice names its reason.
  lemma NoticeNamesReason(path: string, r: Gatekeeper.Reason, q: Gatekeeper.Reason)
    ensures Gatekeeper.Notice(path, r) == Gatekeeper.Notice(path, q) <==> r == q
  {
    if Gatekeeper.Notice(path, r) == Gatekeeper.Notice(path, q) {
      assert |Gatekeeper.ReasonText(r)| == |Gatekeeper.ReasonText(q)|;
    }
  }

  /**
    * Which notice a file gets: a lang path always gives the lang-file notice, whatever
    * the text; then a CLI script, then a front-end script; and each skip prints nothing.
    */
  lemma SkipNotices(path: string, source: string)
    ensures Filter(path, source).notice == Some(Gatekeeper.Notice(path, Gatekeeper.LangFile)) <==>
              exists i, j :: Gatekeeper.LangMatch(path, i, j)
    ensures Filter(path, source).notice == Some(Gatekeeper.Notice(path, Gatekeeper.CliScript)) <==>
              !(exists i, j :: Gatekeeper.LangMatch(path, i, j)) &&
              exists i, j, k :: Gatekeeper.CliMatch(source, i, j, k)
    ensures Filter(path, source).notice == Some(Gatekeeper.Notice(path, Gatekeeper.FrontEndScript)) <==>
              !(exists i, j :: Gatekeeper.LangMatch(path, i, j)) &&
              !(exists i, j, k :: Gatekeeper.CliMatch(source, i, j, k)) &&
              exists i, j, k :: Gatekeeper.ConfigMatch(source, i, j, k)
  {
    Gatekeeper.CheckSpec(path, source);
    NoticeIs(path, source, Gatekeeper.LangFile);
    NoticeIs(path, source, Gatekeeper.CliScript);
    NoticeIs(path, source, Gatekeeper.FrontEndScript);
  }

  // A file gets the notice of a reason exactly when the gatekeeper gives that reason.
  lemma NoticeIs(path: string, source: string, r: Gatekeeper.Reason)
    ensures Filter(path, source).notice == Some(Gatekeeper.Notice(path, r)) <==> Gatekeeper.Check(path, source) == Some(r)
  {
    match Gatekeeper.Check(path, source)
    case None =>
    case Some(q) => NoticeNamesReason(path, q, r);
  }

  /** A character that none of the rewrites looks for at the start of a match. */
  predicate InertChar(c: char) {
    c != '/' && c != '@' && c != '\\' && c != '*' && c != '{' && c != 'M' && c != 'C'
  }

  /**
    * Text that no rewrite touches: no comment, tag, backslash, tracker code or brace,
    * no "namespace", and no "trait" at its start.
    */
  predicate Inert(s: string) {
    AllIn(s, InertChar) &&
    (forall i :: 0 <= i < |s| ==> !StartsWith(s[i..], "namespace")) &&
    !StartsWith(s, "trait")
  }

  // Every literal starting with `c` is absent from a text without `c`.
  lemma Absent(s: string, w: string)
    requires |w| > 0 && forall k :: 0 <= k < |s| ==> s[k] != w[0]
    ensures forall i :: 0 <= i <= |s| ==> !StartsWith(s[i..], w)
  {
    forall i | 0 <= i <= |s| ensures !StartsWith(s[i..], w) {
      LeadOf(s[i..], w);
      assert i < |s| ==> s[i..][0] == s[i];
    }
  }

  // The rewrites up to the namespaces keep an inert text.
  lemma EarlyStagesKeep(path: string, s: string)
    requires Inert(s)
    ensures FileTags.AddFileTag(s, path) == s && FileTags.StripNameTags(s) == s
    ensures VarSplice.SpliceVarTypes(s) == s && TagRenames.RenameReturns(s) == s
    ensures Namespaces.Annotate(s) == s && Namespaces.StripEscapes(s) == s
  {
    Absent(s, "/**");
    FileTags.FileTagKept(s, path);
    Absent(s, "@name");
    FileTags.NoNameTagUnchanged(s);
    Absent(s, "@var");
    Absent(s, "@global");
    VarSplice.NoVarTagUnchanged(s);
    Absent(s, "@return");
    TagRenames.NoReturnUnchanged(s);
    Namespaces.NoNamespaceUnchanged(s);
    assert '\\' !in s by { assert forall k :: 0 <= k < |s| ==> s[k] != '\\'; }
    Namespaces.StripEscapesKeepsText(s);
  }

  // The comment conversion keeps a text without '/' and '*'.
  lemma CommentsKeep(s: string)
    requires forall k :: 0 <= k < |s| ==> s[k] != '/' && s[k] != '*'
    ensures Namespaces.ConvertComments(s) == s
  {
    forall i | 0 <= i <= |s| ensures !Scan.Fires(Namespaces.CommentMatch, s[i..]) {
      assert i < |s| ==> s[i..][0] == s[i];
      if Scan.Fires(Namespaces.CommentMatch, s[i..]) { Namespaces.CommentLead(s[i..]); }
    }
    Scan.NoHitUnchanged(Namespaces.CommentMatch, s);
  }

  // The rewrites from the comment conversion on keep an inert text.
  lemma LateStagesKeep(s: string)
    requires Inert(s)
    ensures Namespaces.ConvertComments(s) == s && PackageGroup.WrapInGroup(s) == s
    ensures TagRenames.PackagesToGroups(s) == s && TagRenames.AccessToTags(s) == s
    ensures Links.LinkTrackerCodes(s) == s && TagRenames.LinksToExternalUrls(s) == s
    ensures Links.ExpandInlineLinks(s) == s && Traits.RenameTrait(s) == s
  {
    CommentsKeep(s);
    Absent(s, "/** @file");
    PackageGroup.NoFileDocUnwrapped(s);
    Absent(s, "@package");
    TagRenames.NoPackageUnchanged(s);
    assert '@' !in s by { assert forall k :: 0 <= k < |s| ==> s[k] != '@'; }
    TagRenames.AccessQuiet(s, [], []);
    assert s + [] + [] == s;
    Scan.NoHitUnchanged(TagRenames.AccessMatch, s);
    Links.SlashedCodesKept(s);
    assert '*' !in s by { assert forall k :: 0 <= k < |s| ==> s[k] != '*'; }
    TagRenames.NoStarUnchanged(s);
    Links.NoBraceKept(s);
  }

  // Line 120 runs before line 128 reads the package. A one-word `@package` value on a
  // " * " line of the first "/** @file" docblock reaches line 130 with every backslash
  // written as `::`, so `core\\update` names the group `core::update`. The text before
  // the value and the lines after it hold no backslash.
  lemma PackageAfterComments(u: string, x: string, d0: string, ws: string, value: string, mid: string, v: string)
    requires NotStartedIn(u, "/** @file") && '\\' !in u && '\\' !in d0 && '\\' !in mid
    requires PackageGroup.IsPackageDoc(x, d0 + "\n * ", ws, value, mid) && '\n' !in ws && AllIn(value, NotSpace)
    ensures PackageGroup.PackageValue(Namespaces.ConvertComments(u + x + v)) == Some(Trim(ScopeSeparators(value)))
  {
    var d := d0 + "\n * ";
    var c := ScopeSeparators(value);
    var x' := "/** @file" + d + "@package" + ws + c + "\n" + mid + "*/";
    ScopeSeparatorsWord(value);
    assert PackageGroup.IsPackageDoc(x', d, ws, c, mid);
    var r := CommentsBeforePackage(u, x, d0, ws, value, mid, v);
    PackageGroup.PackageValueOn(u, x', d, ws, c, mid, r);
  }

  // The comment conversion on such a text changes only the value, up to what follows the docblock.
  lemma CommentsBeforePackage(u: string, x: string, d0: string, ws: string, value: string, mid: string, v: string)
    returns (r: string)
    requires '\\' !in u && '\\' !in d0 && '\\' !in mid
    requires PackageGroup.IsPackageDoc(x, d0 + "\n * ", ws, value, mid) && '\n' !in ws && AllIn(value, NotSpace)
    ensures Namespaces.ConvertComments(u + x + v) ==
            u + ("/** @file" + (d0 + "\n * ") + "@package" + ws + ScopeSeparators(value) + "\n" + mid + "*/") + r
  {
    if '\\' !in value {
      assert '\\' !in u + x;
      Namespaces.ConvertKeepsPrefix(u + x, v);
      r :| Namespaces.ConvertComments(u + x + v) == u + x + r;
    } else {
      r := BackslashedValue(u, x, d0, ws, value, mid, v);
    }
  }

  // A value holding a backslash: the match runs from the line's "*" to the end of the value.
  lemma BackslashedValue(u: string, x: string, d0: string, ws: string, value: string, mid: string, v: string)
    returns (r: string)
    requires '\\' !in u && '\\' !in d0 && '\\' !in mid && '\\' in value
    requires PackageGroup.IsPackageDoc(x, d0 + "\n * ", ws, value, mid) && '\n' !in ws && AllIn(value, NotSpace)
    ensures Namespaces.ConvertComments(u + x + v) ==
            u + ("/** @file" + (d0 + "\n * ") + "@package" + ws + ScopeSeparators(value) + "\n" + mid + "*/") + r
  {
    var j := SpanEnd(value, 0, Namespaces.PlainCommentChar);
    var pre := value[..j];
    var word := value[j..];
    var a := u + "/** @file" + d0;
    var text := " @package" + ws + pre;
    var tail := "\n" + mid + "*/";
    var lead := a + "\n ";
    var p := lead + "*" + text;
    var rest := tail + v;
    ValueSplit(value, j);
    TextPlain(ws, pre, text);
    LineStart(u, d0, a, text, lead, p);
    ValueLayout(u, x, d0, ws, pre, word, mid, v, a, text, tail, lead, p);
    Namespaces.QuietBeforeLine(p, word + rest, |a|);
    assert |lead| == |a| + 2;
    Namespaces.CommentConverted(lead, "*", text, word, rest, "*" + text + word);
    Namespaces.ConvertKeepsPrefix(tail, v);
    r :| Namespaces.ConvertComments(rest) == tail + r;
    ScopeSeparatorsAppend(pre, word);
    ValueRegrouped(u, d0, ws, pre, ScopeSeparators(word), mid, r, a, text, tail);
  }

  // The value splits at its first backslash into a plain part and a word.
  lemma ValueSplit(value: string, j: nat)
    requires '\\' in value && AllIn(value, NotSpace) && j == SpanEnd(value, 0, Namespaces.PlainCommentChar)
    ensures j < |value| && value[j] == '\\' && value == value[..j] + value[j..]
    ensures AllIn(value[..j], Namespaces.PlainCommentChar) && AllIn(value[j..], NotSpace)
  {
    var k :| 0 <= k < |value| && value[k] == '\\';
    assert j <= k;
    assert NotSpace(value[j]) && !Namespaces.PlainCommentChar(value[j]);
    forall i | 0 <= i < |value| - j ensures NotSpace(value[j..][i]) { assert value[j..][i] == value[j + i]; }
    forall i | 0 <= i < j ensures Namespaces.PlainCommentChar(value[..j][i]) { assert value[..j][i] == value[i]; }
  }

  // The comment text before the backslash: the tag, its whitespace and the plain part.
  lemma TextPlain(ws: string, pre: string, text: string)
    requires AllIn(ws, IsSpace) && '\n' !in ws && AllIn(pre, Namespaces.PlainCommentChar)
    requires text == " @package" + ws + pre
    ensures AllIn(text, Namespaces.PlainCommentChar)
  {
    forall k | 0 <= k < |text| ensures Namespaces.PlainCommentChar(text[k]) {
      if k < 9 { assert text[k] == " @package"[k]; }
      else if k < 9 + |ws| { assert text[k] == ws[k - 9]; }
      else { assert text[k] == pre[k - 9 - |ws|]; }
    }
  }

  // The text up to the backslash holds none, and its line starts after `a`.
  lemma LineStart(u: string, d0: string, a: string, text: string, lead: string, p: string)
    requires '\\' !in u && '\\' !in d0 && AllIn(text, Namespaces.PlainCommentChar)
    requires a == u + "/** @file" + d0 && lead == a + "\n " && p == lead + "*" + text
    ensures '\\' !in p && |a| + 1 < |p| && p[|a|] == '\n' && p[|a| + 1] == ' '
  {
    assert '\\' !in text by { assert forall k :: 0 <= k < |text| ==> text[k] != '\\'; }
    assert p[|a|] == lead[|a|];
  }

  // The text as the quiet part, the match and the rest.
  lemma ValueLayout(u: string, x: string, d0: string, ws: string, pre: string, word: string, mid: string, v: string,
                    a: string, text: string, tail: string, lead: string, p: string)
    requires x == "/** @file" + (d0 + "\n * ") + "@package" + ws + (pre + word) + "\n" + mid + "*/"
    requires a == u + "/** @file" + d0 && text == " @package" + ws + pre && tail == "\n" + mid + "*/"
    requires lead == a + "\n " && p == lead + "*" + text
    ensures u + x + v == p + (word + (tail + v)) == lead + ("*" + text + word) + (tail + v)
  {
    assert "\n * " + "@package" == "\n " + "*" + " @package";
  }

  // The converted text, regrouped as a docblock with the converted value.
  lemma ValueRegrouped(u: string, d0: string, ws: string, pre: string, c: string, mid: string, r: string,
                       a: string, text: string, tail: string)
    requires a == u + "/** @file" + d0 && text == " @package" + ws + pre && tail == "\n" + mid + "*/"
    ensures (a + "\n ") + "*" + text + c + (tail + r) ==
            u + ("/** @file" + (d0 + "\n * ") + "@package" + ws + (pre + c) + "\n" + mid + "*/") + r
  {
    assert "\n " + "*" + " @package" == "\n * " + "@package";
  }

  /** A file that passes the gatekeeper and holds nothing any rewrite looks for is printed as it is. */
  lemma InertPrinted(path: string, source: string)
    requires Gatekeeper.Check(path, source).None? && Inert(source)
    ensures Filter(path, source) == Outcome(source, None)
  {
    EarlyStagesKeep(path, source);
    LateStagesKeep(source);
  }
}
