// The `@var` / `@global` rewrite (phpdocs/doxygen-filter.php, lines 89-92): a docblock
// tag `@var <type> <description>` that closes right before a property declaration loses
// the tag, and the type moves into the declaration, in front of the variable. The
// pattern, with the `m` and `s` flags, is
//   (\@(var|global)\s+)([^\s]+)(\s+(.*?))(\*/\s+)(((var|global|public|protected|private|static)\s+)*)(\$[^;]+;)*
// and the replacement `${4}${6}${7}${3} ${10}`.
//
// How PCRE matches it at one position, worked out once: every `\s+` and the type's
// `[^\s]+` take their whole run, since a shorter run leaves a character that the next
// item cannot start with; the lazy `(.*?)` stops at the first "*/" followed by
// whitespace; the two trailing repetitions can match nothing, so the first such "*/"
// always completes the match, and each repetition then goes on while it can. Group 10,
// a repeated group, holds its last repetition, or nothing when it did not repeat.
module VarSplice {
  import opened Wrappers
  import opened Text
  import Scan

  /** The capture groups the replacement uses: 3, 4, 6, 7 and 10. */
  datatype VarGroups = VarGroups(
    varType: string,      // group 3: the type
    description: string,  // group 4: the whitespace after the type and the description
    closer: string,       // group 6: the docblock's closing "*" "/" and the whitespace after it
    modifiers: string,    // group 7: the keywords before the variable, each with its whitespace
    declaration: string)  // group 10: the last `$name;` declaration, or nothing

  // Line 91: `${4}${6}${7}${3} ${10}` — group 1, the tag, is dropped.
  function SpliceTemplate(g: VarGroups): string {
    g.description + g.closer + g.modifiers + g.varType + " " + g.declaration
  }

  /** The length of the tag `@var` or `@global` at the start of `t`, or 0 when neither is there. */
  function TagLen(t: string): nat {
    if StartsWith(t, "@var") then 4 else if StartsWith(t, "@global") then 7 else 0
  }

  // The closing "*" "/" followed by whitespace, `\*/\s`, at position `q`.
  predicate CloserAt(t: string, q: nat) {
    q + 2 < |t| && t[q] == '*' && t[q + 1] == '/' && IsSpace(t[q + 2])
  }

  /** Where the lazy description stops: the first closer at or after `i`. */
  function CloserFrom(t: string, i: nat): (r: Option<nat>)
    requires i <= |t|
    ensures r.Some? ==> i <= r.value && CloserAt(t, r.value)
    ensures r.Some? ==> forall q :: i <= q < r.value ==> !CloserAt(t, q)
    ensures r.None? ==> forall q :: i <= q < |t| ==> !CloserAt(t, q)
    decreases |t| - i
  {
    if i == |t| then None else if CloserAt(t, i) then Some(i) else CloserFrom(t, i + 1)
  }

  /** The modifiers group 7 accepts: `var|global|public|protected|private|static`. */
  predicate IsKeyword(w: string) {
    w == "var" || w == "global" || w == "public" || w == "protected" || w == "private" || w == "static"
  }

  /** The length of the keyword at position `i`, or 0 when none is there, trying them in the pattern's order. */
  function KeywordLen(t: string, i: nat): nat
    requires i <= |t|
  {
    if StartsWith(t[i..], "var") then 3
    else if StartsWith(t[i..], "global") then 6
    else if StartsWith(t[i..], "public") then 6
    else if StartsWith(t[i..], "protected") then 9
    else if StartsWith(t[i..], "private") then 7
    else if StartsWith(t[i..], "static") then 6
    else 0
  }

  /** The end of group 7: as many `<keyword><whitespace>` repetitions as follow `i`. */
  function ModifiersEnd(t: string, i: nat): (h: nat)
    requires i <= |t|
    ensures i <= h <= |t|
    decreases |t| - i
  {
    var k := KeywordLen(t, i);
    if k > 0 && i + k < |t| && IsSpace(t[i + k]) then ModifiersEnd(t, SpanEnd(t, i + k, IsSpace))
    else i
  }

  /** `[^;]`. */
  predicate NotSemicolon(c: char) { c != ';' }

  /**
    * Group 10's repetition from `i`: its end, and where its last repetition starts
    * (`last`, the start of the group, when it did not repeat).
    */
  function Declarations(t: string, i: nat, last: nat): (r: (nat, nat))
    requires last <= i <= |t|
    ensures last <= r.1 <= r.0 <= |t| && i <= r.0
    decreases |t| - i
  {
    if i < |t| && t[i] == '$' then
      var e := SpanEnd(t, i + 1, NotSemicolon);
      if i + 1 < e < |t| then Declarations(t, e + 1, i) else (i, last)
    else (i, last)
  }

  /** The matcher of line 89: the match at the start of `t` and its replacement. */
  function VarMatch(t: string): Option<Scan.Hit> {
    var a := TagLen(t);
    if a == 0 || a >= |t| || !IsSpace(t[a]) then None else AfterTag(t, SpanEnd(t, a, IsSpace))
  }

  // The rest of the match from the type at `b` on.
  function AfterTag(t: string, b: nat): Option<Scan.Hit>
    requires b <= |t|
  {
    if b == |t| then None
    else
      var c := SpanEnd(t, b, NotSpace);
      if c == |t| then None
      else
        match CloserFrom(t, SpanEnd(t, c, IsSpace))
        case None => None
        case Some(q) => Some(AfterCloser(t, b, c, q))
  }

  // The rest of the match from the closer at `q` on, with the type at `t[b..c]`.
  function AfterCloser(t: string, b: nat, c: nat, q: nat): Scan.Hit
    requires b <= c <= q && q + 2 <= |t|
  {
    var f := SpanEnd(t, q + 2, IsSpace);
    var h := ModifiersEnd(t, f);
    var (e, l) := Declarations(t, h, h);
    Scan.Hit(e, SpliceTemplate(VarGroups(t[b..c], t[c..q], t[q..f], t[f..h], t[l..e])))
  }

  /** `preg_replace` of line 89's pattern by line 91's template. */
  function SpliceVarTypes(s: string): string {
    Scan.ReplaceAll(VarMatch, s)
  }

  // ---------------------------------------------------------------------------
  // The shape of a match.

  /** One modifier of the declaration with the whitespace after it. */
  datatype Modifier = Modifier(keyword: string, gap: string)

  predicate IsModifier(m: Modifier) {
    IsKeyword(m.keyword) && |m.gap| > 0 && AllIn(m.gap, IsSpace)
  }

  /** The modifiers as they stand in the text. */
  function Join(mods: seq<Modifier>): string {
    if mods == [] then [] else mods[0].keyword + mods[0].gap + Join(mods[1..])
  }

  /** A `$name;` declaration: what one repetition of group 10 matches. */
  predicate IsDeclaration(d: string) {
    |d| >= 3 && d[0] == '$' && d[|d| - 1] == ';' && ';' !in d[1..|d| - 1]
  }

  /**
    * No closer, "*" "/" and whitespace, inside the description itself: the lazy `(.*?)`
    * stops at the first one.
    */
  predicate NoCloseInside(desc: string) {
    forall k :: 0 <= k < |desc| ==> !CloserAt(desc, k)
  }

  /**
    * The parts of a property docblock's end and the declaration it documents, as line 89's
    * pattern splits them: the tag, the type, the description, the docblock's closer, the
    * modifiers and the declaration, with the whitespace between them.
    */
  datatype VarDoc = VarDoc(tag: string, ws1: string, typ: string, ws2: string, desc: string,
                           ws3: string, mods: seq<Modifier>, decl: string)

  /** The parts make one match: each run of whitespace is non-empty and the type is one word. */
  predicate IsVarDoc(d: VarDoc) {
    (d.tag == "@var" || d.tag == "@global") &&
    |d.ws1| > 0 && AllIn(d.ws1, IsSpace) && |d.typ| > 0 && AllIn(d.typ, NotSpace) &&
    |d.ws2| > 0 && AllIn(d.ws2, IsSpace) && NoCloseInside(d.desc) && |d.ws3| > 0 && AllIn(d.ws3, IsSpace) &&
    (forall k :: 0 <= k < |d.mods| ==> IsModifier(d.mods[k])) && IsDeclaration(d.decl)
  }

  /** The tag and the type. */
  function Head(d: VarDoc): string { d.tag + d.ws1 + d.typ }

  /** The description with the whitespace before it: group 4. */
  function Description(d: VarDoc): string { d.ws2 + d.desc }

  /** The closer, the modifiers and the declaration. */
  function Tail(d: VarDoc): string { "*/" + d.ws3 + Join(d.mods) + d.decl }

  /** The parts as they stand in the text. */
  function Source(d: VarDoc): string { Head(d) + Description(d) + Tail(d) }

  /** The text that replaces them: the description and the closer stay, the tag goes and the type moves. */
  function Rewritten(d: VarDoc): string {
    Description(d) + "*/" + d.ws3 + Join(d.mods) + d.typ + " " + d.decl
  }

  // ---------------------------------------------------------------------------
  // Group 7.

  /** A keyword starts with a letter, so whitespace never runs into one. */
  lemma KeywordStart(kw: string)
    requires IsKeyword(kw)
    ensures |kw| >= 3 && !IsSpace(kw[0])
  {
  }

  /** At most one keyword can stand at a position, so the alternation finds the one that does. */
  lemma KeywordAt(t: string, i: nat, kw: string)
    requires IsKeyword(kw) && i <= |t| && StartsWith(t[i..], kw)
    ensures KeywordLen(t, i) == |kw|
  {
    var p := t[i..];
    assert p[..|kw|] == kw;
    assert p[0] == kw[0] && p[1] == kw[1] && p[2] == kw[2];
  }

  /** Group 7 takes exactly the modifiers in front of a `$` declaration. */
  lemma {:induction false} ModifiersEndOn(t: string, i: nat, e: nat, mods: seq<Modifier>)
    requires forall k :: 0 <= k < |mods| ==> IsModifier(mods[k])
    requires e == i + |Join(mods)| && e < |t| && t[i..e] == Join(mods) && t[e] == '$'
    ensures ModifiersEnd(t, i) == e
    decreases |mods|
  {
    if mods == [] {
      assert t[i..][..1] == "$";
      assert KeywordLen(t, i) == 0;
    } else {
      var m := mods[0];
      var rest := Join(mods[1..]);
      var g := i + |m.keyword| + |m.gap|;
      assert Join(mods) == (m.keyword + m.gap) + rest;
      SplitSlice(t, i, m.keyword + m.gap, rest);
      assert IsModifier(m);
      assert !IsSpace(t[g]) by {
        if mods[1..] != [] {
          assert t[g] == t[g..e][0] == rest[0] == mods[1].keyword[0];
          assert IsModifier(mods[1]);
          KeywordStart(mods[1].keyword);
        }
      }
      ModifierStep(t, i, g, m);
      ModifiersEndUnfold(t, i, |m.keyword|, g);
      ModifiersEndOn(t, g, e, mods[1..]);
    }
  }

  /** One modifier and its whitespace make one repetition of group 7. */
  lemma ModifierStep(t: string, i: nat, g: nat, m: Modifier)
    requires IsModifier(m) && g == i + |m.keyword| + |m.gap| && g < |t|
    requires t[i..g] == m.keyword + m.gap && !IsSpace(t[g])
    ensures KeywordLen(t, i) == |m.keyword| && IsSpace(t[i + |m.keyword|])
    ensures SpanEnd(t, i + |m.keyword|, IsSpace) == g
  {
    var n := |m.keyword|;
    SplitSlice(t, i, m.keyword, m.gap);
    assert StartsWith(t[i..], m.keyword) by { assert t[i..][..n] == t[i..i + n]; }
    KeywordAt(t, i, m.keyword);
    assert t[i + n] == t[i + n..g][0];
    SpanEndOver(t, i + n, g, m.gap, IsSpace);
  }

  // One repetition of group 7 from `i` to `g`.
  lemma ModifiersEndUnfold(t: string, i: nat, k: nat, g: nat)
    requires i <= |t| && KeywordLen(t, i) == k && k > 0 && i + k < |t| && IsSpace(t[i + k])
    requires SpanEnd(t, i + k, IsSpace) == g
    ensures ModifiersEnd(t, i) == ModifiersEnd(t, g)
  {
  }

  // ---------------------------------------------------------------------------
  // The match, stage by stage.

  /** One declaration that no other follows is group 10, and the match ends after it. */
  lemma DeclarationOn(t: string, h: nat, e: nat, decl: string)
    requires IsDeclaration(decl) && e == h + |decl| && e <= |t| && t[h..e] == decl
    requires e == |t| || t[e] != '$'
    ensures Declarations(t, h, h) == (e, h)
  {
    var z := e - 1;
    assert t[h] == decl[0];
    assert t[z] == decl[|decl| - 1];
    forall k | h + 1 <= k < z ensures NotSemicolon(t[k]) { assert t[k] == decl[k - h] == decl[1..|decl| - 1][k - h - 1]; }
    SpanEndIs(t, h + 1, z, NotSemicolon);
  }

  /** Nothing but the first modifier, or the declaration, follows the closer's whitespace. */
  lemma TailStart(t: string, f: nat, h: nat, e: nat, d: VarDoc)
    requires IsVarDoc(d) && h == f + |Join(d.mods)| && e == h + |d.decl| && e <= |t|
    requires t[f..h] == Join(d.mods) && t[h..e] == d.decl
    ensures f < |t| && !IsSpace(t[f]) && t[h] == '$'
  {
    assert t[h] == t[h..e][0];
    if d.mods != [] {
      assert t[f] == t[f..h][0] == Join(d.mods)[0] == d.mods[0].keyword[0];
      assert IsModifier(d.mods[0]);
      KeywordStart(d.mods[0].keyword);
    }
  }

  /** From the closer on, groups 6, 7 and 10 take the closer's whitespace, the modifiers and the declaration. */
  lemma AfterCloserOn(t: string, b: nat, c: nat, q: nat, f: nat, h: nat, e: nat, d: VarDoc)
    requires IsVarDoc(d)
    requires b <= c <= q && f == q + 2 + |d.ws3| && h == f + |Join(d.mods)| && e == h + |d.decl| && e <= |t|
    requires t[b..c] == d.typ && t[c..q] == Description(d)
    requires t[q..f] == "*/" + d.ws3 && t[q + 2..f] == d.ws3 && t[f..h] == Join(d.mods) && t[h..e] == d.decl
    requires e == |t| || t[e] != '$'
    ensures AfterCloser(t, b, c, q) == Scan.Hit(e, Rewritten(d))
  {
    TailStart(t, f, h, e, d);
    SpanEndOver(t, q + 2, f, d.ws3, IsSpace);
    ModifiersEndOn(t, f, h, d.mods);
    DeclarationOn(t, h, e, d.decl);
    AfterCloserIs(t, b, c, q, f, h, e);
    assert VarGroups(t[b..c], t[c..q], t[q..f], t[f..h], t[h..e]) ==
           VarGroups(d.typ, Description(d), "*/" + d.ws3, Join(d.mods), d.decl);
    TemplateOn(d);
  }

  /** Line 91's template on the groups of a match gives the rewritten text. */
  lemma TemplateOn(d: VarDoc)
    ensures SpliceTemplate(VarGroups(d.typ, Description(d), "*/" + d.ws3, Join(d.mods), d.decl)) == Rewritten(d)
  {
  }

  // The groups of the tail, once the steps of the match are known.
  lemma AfterCloserIs(t: string, b: nat, c: nat, q: nat, f: nat, h: nat, e: nat)
    requires b <= c <= q && q + 2 <= f <= h <= e <= |t|
    requires SpanEnd(t, q + 2, IsSpace) == f && ModifiersEnd(t, f) == h && Declarations(t, h, h) == (e, h)
    ensures AfterCloser(t, b, c, q) == Scan.Hit(e, SpliceTemplate(VarGroups(t[b..c], t[c..q], t[q..f], t[f..h], t[h..e])))
  {
  }

  /** The description runs from the type to the first closer. */
  lemma DescriptionOn(t: string, c: nat, q: nat, d: VarDoc)
    requires IsVarDoc(d)
    requires q == c + |Description(d)| && CloserAt(t, q) && t[c..q] == Description(d)
    ensures c < |t| && CloserFrom(t, SpanEnd(t, c, IsSpace)) == Some(q)
  {
    var p := c + |d.ws2|;
    SplitSlice(t, c, d.ws2, d.desc);
    assert forall x :: c <= x < p ==> t[x] == d.ws2[x - c];
    assert forall x :: p <= x < q ==> t[x] == d.desc[x - p];
    var z := SpanEnd(t, c, IsSpace);
    assert z <= q;
    forall x | z <= x < q ensures !CloserAt(t, x) {
      if x + 2 < q {
        assert !CloserAt(d.desc, x - p);
        assert t[x + 1] == d.desc[x + 1 - p] && t[x + 2] == d.desc[x + 2 - p];
      } else {
        assert t[q] == '*';
      }
    }
    CloserFromIs(t, z, q);
  }

  /** The first closer at or after `i` is the one at `q` when none stands in between. */
  lemma CloserFromIs(t: string, i: nat, q: nat)
    requires i <= q && CloserAt(t, q)
    requires forall x :: i <= x < q ==> !CloserAt(t, x)
    ensures CloserFrom(t, i) == Some(q)
  {
  }

  /** From the type on, the match reaches the closer that ends the description. */
  lemma AfterTagOn(t: string, b: nat, c: nat, q: nat, d: VarDoc)
    requires IsVarDoc(d)
    requires c == b + |d.typ| && q == c + |Description(d)| && CloserAt(t, q)
    requires t[b..c] == d.typ && t[c..q] == Description(d)
    ensures AfterTag(t, b) == Some(AfterCloser(t, b, c, q))
  {
    assert t[c] == t[c..q][0] == d.ws2[0];
    SpanEndOver(t, b, c, d.typ, NotSpace);
    DescriptionOn(t, c, q, d);
  }

  /** The alternation `(var|global)` recognises the tag. */
  lemma TagOn(t: string, tag: string)
    requires (tag == "@var" || tag == "@global") && StartsWith(t, tag)
    ensures TagLen(t) == |tag|
  {
    assert t[..|tag|] == tag;
    assert t[2] == tag[2];
  }

  /** The tag and its whitespace: group 1. */
  lemma HeadOn(t: string, b: nat, d: VarDoc)
    requires IsVarDoc(d) && b == |d.tag| + |d.ws1| && b < |t| && !IsSpace(t[b])
    requires t[..b] == d.tag + d.ws1
    ensures VarMatch(t) == AfterTag(t, b)
  {
    var a := |d.tag|;
    assert t[0..b] == t[..b];
    SplitSlice(t, 0, d.tag, d.ws1);
    assert StartsWith(t, d.tag) by { assert t[..a] == t[0..a]; }
    TagOn(t, d.tag);
    assert t[a] == t[a..b][0];
    SpanEndOver(t, a, b, d.ws1, IsSpace);
  }

  /** The parts of a property docblock are one match of line 89's pattern, replaced as line 91 says. */
  lemma VarMatchOn(d: VarDoc, v: string)
    requires IsVarDoc(d) && (v == [] || v[0] != '$')
    ensures VarMatch(Source(d) + v) == Some(Scan.Hit(|Source(d)|, Rewritten(d)))
  {
    var t := Source(d) + v;
    var b := |d.tag| + |d.ws1|;
    var c := |Head(d)|;
    var q := c + |Description(d)|;
    var f := q + 2 + |d.ws3|;
    var h := f + |Join(d.mods)|;
    var e := h + |d.decl|;
    SourceSlices(d, v, t, c, q, e);
    TailGroups(t, q, f, h, e, d);
    HeadGroups(t, b, c, d);
    assert CloserAt(t, q) by {
      assert t[q] == t[q..q + 2][0] && t[q + 1] == t[q..q + 2][1] && t[q + 2] == t[q + 2..f][0];
    }
    assert t[b] == t[b..c][0];
    HeadOn(t, b, d);
    AfterTagOn(t, b, c, q, d);
    AfterCloserOn(t, b, c, q, f, h, e, d);
  }

  // Where the three parts of a match stand in the text.
  lemma SourceSlices(d: VarDoc, v: string, t: string, c: nat, q: nat, e: nat)
    requires t == Source(d) + v && c == |Head(d)| && q == c + |Description(d)| && e == q + |Tail(d)|
    ensures e == |Source(d)| && e <= |t| && t[..c] == Head(d) && t[c..q] == Description(d) && t[q..e] == Tail(d)
    ensures e == |t| || t[e] != '$' || v[0] == '$'
  {
    assert t == Head(d) + Description(d) + (Tail(d) + v);
    Middle(Head(d), Description(d), Tail(d) + v);
    assert t == Head(d) + Description(d) + Tail(d) + v;
    Middle(Head(d) + Description(d), Tail(d), v);
    assert t[..c] == Head(d) by { assert t[..c] == (Head(d) + (Description(d) + Tail(d) + v))[..c]; }
    if e < |t| { assert t[e] == v[0]; }
  }

  // The slices of the head that groups 1 and 3 capture.
  lemma HeadGroups(t: string, b: nat, c: nat, d: VarDoc)
    requires b == |d.tag| + |d.ws1| && c == |Head(d)| && c <= |t| && t[..c] == Head(d)
    ensures t[..b] == d.tag + d.ws1 && t[b..c] == d.typ
  {
    assert t[0..c] == t[..c];
    SplitSlice(t, 0, d.tag + d.ws1, d.typ);
    assert t[..b] == t[0..b];
  }

  // The slices of the tail that groups 6, 7 and 10 capture.
  lemma TailGroups(t: string, q: nat, f: nat, h: nat, e: nat, d: VarDoc)
    requires f == q + 2 + |d.ws3| && h == f + |Join(d.mods)| && e == h + |d.decl|
    requires e <= |t| && t[q..e] == Tail(d)
    ensures t[q..f] == "*/" + d.ws3 && t[q..q + 2] == "*/" && t[q + 2..f] == d.ws3
    ensures t[f..h] == Join(d.mods) && t[h..e] == d.decl
  {
    SplitSlice(t, q, "*/" + d.ws3 + Join(d.mods), d.decl);
    SplitSlice(t, q, "*/" + d.ws3, Join(d.mods));
    SplitSlice(t, q, "*/", d.ws3);
  }

  // ---------------------------------------------------------------------------
  // What the rewrite does to a text.

  /**
    * Line 89's pattern with its ends: the tag up to `a`, whitespace up to `b`, the type
    * up to `c`, whitespace at `c` and a closer at `q` after it.
    */
  predicate VarTagAt(t: string, a: nat, b: nat, c: nat, q: nat) {
    ((a == 4 && StartsWith(t, "@var")) || (a == 7 && StartsWith(t, "@global"))) &&
    a < b < c < q && CloserAt(t, q) && Within(t, a, b, IsSpace) && Within(t, b, c, NotSpace) &&
    IsSpace(t[c])
  }

  /** The pattern matches exactly where a tag, whitespace, a type, whitespace and later a closer stand. */
  lemma VarFires(t: string)
    ensures Scan.Fires(VarMatch, t) <==> exists a: nat, b: nat, c: nat, q: nat :: VarTagAt(t, a, b, c, q)
  {
    if Scan.Fires(VarMatch, t) {
      var a := TagLen(t);
      var b := SpanEnd(t, a, IsSpace);
      var c := SpanEnd(t, b, NotSpace);
      var q := CloserFrom(t, SpanEnd(t, c, IsSpace)).value;
      assert VarTagAt(t, a, b, c, q);
    }
    if a: nat, b: nat, c: nat, q: nat :| VarTagAt(t, a, b, c, q) {
      TagOn(t, if a == 4 then "@var" else "@global");
      SpanAt(t, a, b, IsSpace);
      SpanAt(t, b, c, NotSpace);
    }
  }

  /**
    * Lines 89-92, at the leftmost match: the tag and the type leave the docblock, the
    * description and the closer stay where they were, and the type moves in front of
    * the variable.
    */
  lemma VarSpliced(u: string, d: VarDoc, v: string)
    requires Scan.NoHitBefore(VarMatch, u + Source(d) + v, |u|)
    requires IsVarDoc(d) && (v == [] || v[0] != '$')
    ensures SpliceVarTypes(u + Source(d) + v) == u + Rewritten(d) + SpliceVarTypes(v)
  {
    VarMatchOn(d, v);
    Scan.HitAfter(VarMatch, u, Source(d), v, Rewritten(d));
  }

  // A match starts with the tag's '@'.
  lemma VarMatchLead(t: string)
    requires VarMatch(t).Some?
    ensures |t| > 0 && t[0] == '@'
  {
    assert TagLen(t) != 0;
    if StartsWith(t, "@var") { assert t[0] == t[..4][0]; } else { assert t[0] == t[..7][0]; }
  }

  /** A text with no `@var` or `@global` tag is left unchanged. */
  lemma NoVarTagUnchanged(s: string)
    requires forall i :: 0 <= i < |s| ==> !StartsWith(s[i..], "@var") && !StartsWith(s[i..], "@global")
    ensures SpliceVarTypes(s) == s
  {
    forall i | 0 <= i <= |s| ensures !Scan.Fires(VarMatch, s[i..]) {
      if i < |s| && Scan.Fires(VarMatch, s[i..]) {
        VarMatchLead(s[i..]);
      }
    }
    Scan.NoHitUnchanged(VarMatch, s);
  }
}
