/**
  * The last rewrite of phpdocs/doxygen-filter.php (lines 188-190): a trait declared at
  * the very start of the text becomes an interface whose name has the prefix "trait_",
  * so that Doxygen lists it at all.
  *
  * The pattern `#^trait([\s]+([\S]+[\s]*)){#` has no `m` flag, so `^` holds only at the
  * start of the whole text and at most one match is replaced. `[\S]+` can take a '{',
  * and each greedy quantifier gives back characters until the rest of the pattern fits.
  */
module Traits {
  import opened Wrappers
  import opened Text
  import Scan

  /** The end of `[\s]*` from `j`, at a '{'. */
  function BraceAt(t: string, j: nat): Option<nat>
    requires j <= |t|
  {
    LastFit(j, SpanEnd(t, j, IsSpace), (k: nat) => k < |t| && t[k] == '{')
  }

  /** The end of `[\S]+` from `a`: at least one character. */
  function NameEnd(t: string, a: nat): Option<nat>
    requires a <= |t|
  {
    LastFit(a + 1, SpanEnd(t, a, NotSpace), (j: nat) => j <= |t| && BraceAt(t, j).Some?)
  }

  /** The end of `[\s]+` after "trait": at least one character. */
  function GapEnd(t: string): Option<nat>
    requires StartsWith(t, "trait")
  {
    LastFit(6, SpanEnd(t, 5, IsSpace), (a: nat) => a <= |t| && NameEnd(t, a).Some?)
  }

  /** The match of line 188 at the start of `t`: group 2 runs from the gap's end to the '{'. */
  function TraitMatch(t: string): (r: Option<Scan.Hit>)
    ensures r.Some? ==> StartsWith(t, "trait") && 7 < r.value.len <= |t| && t[r.value.len - 1] == '{'
    ensures r.Some? ==> StartsWith(r.value.repl, "interface trait_")
  {
    if !StartsWith(t, "trait") then None
    else
      match GapEnd(t)
      case None => None
      case Some(a) =>
        match NameEnd(t, a)
        case None => None
        case Some(j) =>
          match BraceAt(t, j)
          case None => None
          case Some(k) => Some(Scan.Hit(k + 1, "interface trait_" + t[a..k] + "{"))
  }

  /** `preg_replace` of lines 188-190: only a match at the start of the text is replaced. */
  function RenameTrait(s: string): (r: string)
    ensures !StartsWith(s, "trait") ==> r == s
    ensures r != s ==> StartsWith(r, "interface trait_")
  {
    match TraitMatch(s)
    case None => s
    case Some(h) => if h.len <= |s| then h.repl + s[h.len..] else s
  }

  // `[\s]*` from `j` reaching a '{' at `k`.
  lemma BraceStage(t: string, j: nat, k: nat)
    requires j <= k < |t| && SpanEnd(t, j, IsSpace) == k && t[k] == '{'
    ensures BraceAt(t, j) == Some(k)
  {
    LastFitTop(j, k, (k': nat) => k' < |t| && t[k'] == '{');
  }

  // No '{' after the whitespace from `i`: `[\s]*` and '{' do not match there.
  lemma NoBraceAfter(t: string, i: nat)
    requires i <= |t|
    requires var e := SpanEnd(t, i, IsSpace); e == |t| || t[e] != '{'
    ensures BraceAt(t, i) == None
  {
    var brace := (k: nat) => k < |t| && t[k] == '{';
    var e := SpanEnd(t, i, IsSpace);
    forall j | i <= j <= e ensures !brace(j) { if j < e { assert IsSpace(t[j]); } }
    LastFitNone(i, e, brace);
  }

  // `[\S]+` from `a` keeping its whole run up to `j`.
  lemma NameStage(t: string, a: nat, j: nat, k: nat)
    requires a < j <= |t| && SpanEnd(t, a, NotSpace) == j && BraceAt(t, j) == Some(k)
    ensures NameEnd(t, a) == Some(j)
  {
    LastFitTop(a + 1, j, (j': nat) => j' <= |t| && BraceAt(t, j').Some?);
  }

  // `[\S]+` from `a` giving back the last character of its run, a '{'.
  lemma NameBackStage(t: string, a: nat, j: nat, k: nat)
    requires a < j < |t| && SpanEnd(t, a, NotSpace) == j + 1
    requires BraceAt(t, j + 1) == None && BraceAt(t, j) == Some(k)
    ensures NameEnd(t, a) == Some(j)
  {
    LastFitBack(a + 1, j + 1, (j': nat) => j' <= |t| && BraceAt(t, j').Some?);
  }

  // `[\s]+` after "trait" keeping its whole run up to `a`.
  lemma GapStage(t: string, a: nat, j: nat)
    requires StartsWith(t, "trait") && 5 < a <= |t| && SpanEnd(t, 5, IsSpace) == a && NameEnd(t, a) == Some(j)
    ensures GapEnd(t) == Some(a)
  {
    LastFitTop(6, a, (a': nat) => a' <= |t| && NameEnd(t, a').Some?);
  }

  // The match from the three stages.
  lemma MatchStages(t: string, a: nat, j: nat, k: nat)
    requires StartsWith(t, "trait") && GapEnd(t) == Some(a) && NameEnd(t, a) == Some(j) && BraceAt(t, j) == Some(k)
    ensures TraitMatch(t) == Some(Scan.Hit(k + 1, "interface trait_" + t[a..k] + "{"))
  {
  }

  // Where a text "trait", whitespace up to `a`, a name up to `b` and whitespace up to a
  // '{' at `k` matches.
  lemma SpacedAt(t: string, a: nat, b: nat, k: nat)
    requires StartsWith(t, "trait") && 5 < a < b < k < |t| && t[k] == '{'
    requires Within(t, 5, a, IsSpace) && Within(t, a, b, NotSpace) && Within(t, b, k, IsSpace)
    ensures TraitMatch(t) == Some(Scan.Hit(k + 1, "interface trait_" + t[a..k] + "{"))
  {
    SpanAt(t, b, k, IsSpace);
    BraceStage(t, b, k);
    SpanAt(t, a, b, NotSpace);
    NameStage(t, a, b, k);
    SpanAt(t, 5, a, IsSpace);
    GapStage(t, a, b);
    MatchStages(t, a, b, k);
  }

  // Where a text "trait", whitespace up to `a` and a name up to a '{' at `b` matches when
  // the name's run of non-space characters takes the '{' and does not reach another '{'
  // after whitespace.
  lemma TightAt(t: string, a: nat, b: nat)
    requires StartsWith(t, "trait") && 5 < a < b < |t| && t[b] == '{'
    requires Within(t, 5, a, IsSpace) && Within(t, a, b, NotSpace)
    requires b + 1 == |t| || IsSpace(t[b + 1])
    requires var e := SpanEnd(t, b + 1, IsSpace); e == |t| || t[e] != '{'
    ensures TraitMatch(t) == Some(Scan.Hit(b + 1, "interface trait_" + t[a..b] + "{"))
  {
    NoBraceAfter(t, b + 1);
    SpanAt(t, b, b, IsSpace);
    BraceStage(t, b, b);
    SpanAt(t, a, b + 1, NotSpace);
    NameBackStage(t, a, b, b);
    SpanAt(t, 5, a, IsSpace);
    GapStage(t, a, b);
    MatchStages(t, a, b, b);
  }

  /**
    * `trait Name {` at the start of the text becomes `interface trait_Name {`: group 2
    * is the name and the whitespace before the brace, and the rest is kept.
    */
  lemma TraitRenamed(s: string, ws: string, name: string, ws2: string, v: string)
    requires |ws| > 0 && AllIn(ws, IsSpace) && |name| > 0 && AllIn(name, NotSpace)
    requires |ws2| > 0 && AllIn(ws2, IsSpace)
    requires s == "trait" + ws + name + ws2 + "{" + v
    ensures RenameTrait(s) == "interface trait_" + name + ws2 + "{" + v
  {
    var a := 5 + |ws|;
    var b := a + |name|;
    var k := b + |ws2|;
    SpacedLayout(s, ws, name, ws2, v, a, b, k);
    SpacedRenamedAt(s, a, b, k, name, ws2, v);
  }

  // The rename once the pieces of `trait Name {` are known as positions.
  lemma SpacedRenamedAt(s: string, a: nat, b: nat, k: nat, name: string, ws2: string, v: string)
    requires StartsWith(s, "trait") && 5 < a < b < k < |s| && s[k] == '{' && s[k + 1..] == v
    requires Within(s, 5, a, IsSpace) && Within(s, a, b, NotSpace) && Within(s, b, k, IsSpace)
    requires s[a..k] == name + ws2
    ensures RenameTrait(s) == "interface trait_" + name + ws2 + "{" + v
  {
    SpacedAt(s, a, b, k);
    RenamedAt(s, k + 1, "interface trait_" + (name + ws2) + "{");
    assert "interface trait_" + (name + ws2) == "interface trait_" + name + ws2;
  }

  // The pieces of `trait Name {`, as positions in the text.
  lemma SpacedLayout(s: string, ws: string, name: string, ws2: string, v: string, a: nat, b: nat, k: nat)
    requires |ws| > 0 && AllIn(ws, IsSpace) && |name| > 0 && AllIn(name, NotSpace)
    requires |ws2| > 0 && AllIn(ws2, IsSpace)
    requires s == "trait" + ws + name + ws2 + "{" + v
    requires a == 5 + |ws| && b == a + |name| && k == b + |ws2|
    ensures StartsWith(s, "trait") && 5 < a < b < k < |s| && s[k] == '{' && s[k + 1..] == v
    ensures Within(s, 5, a, IsSpace) && Within(s, a, b, NotSpace) && Within(s, b, k, IsSpace)
    ensures s[a..k] == name + ws2
  {
    assert s[k] == '{' && s[k + 1..] == v by { Framed(s, "trait" + ws + name + ws2, "{", v); }
    assert StartsWith(s, "trait") && Within(s, 5, a, IsSpace) by {
      WithinOf(s, "trait", ws, name + ws2 + "{" + v, IsSpace);
    }
    assert Within(s, a, b, NotSpace) by { WithinOf(s, "trait" + ws, name, ws2 + "{" + v, NotSpace); }
    assert Within(s, b, k, IsSpace) by { WithinOf(s, "trait" + ws + name, ws2, "{" + v, IsSpace); }
    assert s[a..k] == name + ws2 by { Framed(s, "trait" + ws, name + ws2, "{" + v); }
  }

  // The text after a match at its start is kept.
  lemma RenamedAt(s: string, n: nat, repl: string)
    requires TraitMatch(s) == Some(Scan.Hit(n, repl))
    ensures RenameTrait(s) == repl + s[n..]
  {
  }

  /** `[\s]*` from the start of `v` is followed by a '{'. */
  predicate BraceAfterGap(v: string) {
    var e := SpanEnd(v, 0, IsSpace);
    e < |v| && v[e] == '{'
  }

  /**
    * `trait Name{` at the start of the text, the brace right after the name, becomes
    * `interface trait_Name{`, unless more whitespace and a second '{' follow the brace
    * (then `[\S]+` keeps the first brace as part of the name).
    */
  lemma TightTraitRenamed(s: string, ws: string, name: string, v: string)
    requires |ws| > 0 && AllIn(ws, IsSpace) && |name| > 0 && AllIn(name, NotSpace)
    requires v == [] || IsSpace(v[0])
    requires !BraceAfterGap(v)
    requires s == "trait" + ws + name + "{" + v
    ensures RenameTrait(s) == "interface trait_" + name + "{" + v
  {
    var a := 5 + |ws|;
    var b := a + |name|;
    TightLayout(s, ws, name, v, a, b);
    TightRenamedAt(s, a, b, name, v);
  }

  // The rename once the pieces of `trait Name{` are known as positions.
  lemma TightRenamedAt(s: string, a: nat, b: nat, name: string, v: string)
    requires StartsWith(s, "trait") && 5 < a < b < |s| && s[b] == '{' && s[b + 1..] == v
    requires Within(s, 5, a, IsSpace) && Within(s, a, b, NotSpace) && s[a..b] == name
    requires (v == [] || IsSpace(v[0])) && !BraceAfterGap(v)
    ensures RenameTrait(s) == "interface trait_" + name + "{" + v
  {
    TightTail(s, b, v);
    TightAt(s, a, b);
    RenamedAt(s, b + 1, "interface trait_" + name + "{");
  }

  // The pieces of `trait Name{`, as positions in the text.
  lemma TightLayout(s: string, ws: string, name: string, v: string, a: nat, b: nat)
    requires |ws| > 0 && AllIn(ws, IsSpace) && |name| > 0 && AllIn(name, NotSpace)
    requires s == "trait" + ws + name + "{" + v
    requires a == 5 + |ws| && b == a + |name|
    ensures StartsWith(s, "trait") && 5 < a < b < |s| && s[b] == '{' && s[b + 1..] == v
    ensures Within(s, 5, a, IsSpace) && Within(s, a, b, NotSpace) && s[a..b] == name
  {
    assert StartsWith(s, "trait") && s[b] == '{' && s[b + 1..] == v by {
      Framed(s, "trait" + ws + name, "{", v);
    }
    assert Within(s, 5, a, IsSpace) by { WithinOf(s, "trait", ws, name + "{" + v, IsSpace); }
    assert Within(s, a, b, NotSpace) && s[a..b] == name by { WithinOf(s, "trait" + ws, name, "{" + v, NotSpace); }
  }

  // What follows the brace: whitespace or nothing, and no second brace after it.
  lemma TightTail(s: string, b: nat, v: string)
    requires b < |s| && s[b + 1..] == v && (v == [] || IsSpace(v[0])) && !BraceAfterGap(v)
    ensures b + 1 == |s| || IsSpace(s[b + 1])
    ensures var e := SpanEnd(s, b + 1, IsSpace); e == |s| || s[e] != '{'
  {
    if b + 1 < |s| { assert s[b + 1] == v[0]; }
    NoBraceShift(s, b + 1, v);
  }

  // No brace after the whitespace at the start of a suffix is none in the whole text.
  lemma NoBraceShift(s: string, i: nat, v: string)
    requires i <= |s| && s[i..] == v && !BraceAfterGap(v)
    ensures var e := SpanEnd(s, i, IsSpace); e == |s| || s[e] != '{'
  {
    var e := SpanEnd(v, 0, IsSpace);
    GapShift(s, i, v);
    assert i + e < |s| ==> s[i + e] == v[e];
  }

  // Scanning a suffix of a text is scanning the text from where the suffix starts.
  lemma GapShift(t: string, i: nat, v: string)
    requires i <= |t| && t[i..] == v
    ensures SpanEnd(t, i, IsSpace) == i + SpanEnd(v, 0, IsSpace)
  {
    var e := SpanEnd(v, 0, IsSpace);
    assert forall k :: i <= k < i + e ==> t[k] == v[k - i];
    SpanEndIs(t, i, i + e, IsSpace);
  }
}
