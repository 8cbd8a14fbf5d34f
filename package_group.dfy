// The group wrap (phpdocs/doxygen-filter.php, lines 128-141). The `@package` value of
// the first "/** @file" docblock names a Doxygen group. When that value is not empty,
// three steps follow:
//   - every line that looks like `<?php` has its next three lines replaced by the
//     opening of that group;
//   - the group is closed at the end of the text;
//   - the `@package` tag is deleted from every docblock the pattern matches.
module PackageGroup {
  import opened Wrappers
  import opened Text
  import Scan

  // ---------------------------------------------------------------------------
  // Line 128: `#(/\*\* @file.*?)(\@package\s+([^\n]*)?)(.*?\*/)#ms`. With the `s` flag
  // both lazy searches cross line feeds.
  //
  // The first lazy group takes the first "@package" that lets the rest match. After the
  // tag, the greedy `\s+` and `[^\n]*` go to the end of that line, and the lazy last
  // group takes the first "*/" from there on. When no "*/" follows the line, the value
  // gives back characters: the whole match then ends at the last "*/" that starts
  // inside the value. When the value holds none either, a shorter `\s+` does not help,
  // because "*/" never starts on whitespace, and the search goes on to the next "@package".

  /** Where the groups of one match of line 128 start and end. */
  datatype Groups = Groups(tag: nat, value: nat, valueEnd: nat, end: nat)

  /** The last start of `w` in `t[b..e]`. */
  function LastFind(t: string, w: string, b: nat, e: nat): (r: Option<nat>)
    requires b <= e <= |t|
    ensures r.Some? ==> b <= r.value < e && StartsWith(t[r.value..], w)
    ensures r.Some? ==> forall k :: r.value < k < e ==> !StartsWith(t[k..], w)
    ensures r.None? ==> forall k :: b <= k < e ==> !StartsWith(t[k..], w)
    decreases e - b
  {
    if e == b then None
    else if StartsWith(t[e - 1..], w) then Some(e - 1)
    else LastFind(t, w, b, e - 1)
  }

  /** The end of group 3 and the end of the match, once the value starts at `b`. */
  function ValueAndClose(t: string, b: nat): (r: Option<(nat, nat)>)
    requires b <= |t|
    ensures r.Some? ==> b <= r.value.0 && r.value.0 + 2 <= r.value.1 <= |t|
    ensures r.Some? ==> StartsWith(t[r.value.1 - 2..], "*/") && NoNewline(t, b, r.value.0)
  {
    var e := SpanEnd(t, b, NotNewline);
    match Find(t, "*/", e)
    case Some(p) => Some((e, p + 2))
    case None =>
      match LastFind(t, "*/", b, e)
      case Some(p) => Some((p, p + 2))
      case None => None
  }

  /** The match once the lazy first group has reached position `k`. */
  function PackageFrom(t: string, k: nat): (r: Option<Groups>)
    requires k <= |t|
    ensures r.Some? ==> k <= r.value.tag && r.value.tag + 8 < r.value.value
    ensures r.Some? ==> r.value.value <= r.value.valueEnd && r.value.valueEnd + 2 <= r.value.end <= |t|
    decreases |t| - k
  {
    if k == |t| then None
    else if StartsWith(t[k..], "@package") && k + 8 < |t| && IsSpace(t[k + 8]) then
      var b := SpanEnd(t, k + 8, IsSpace);
      match ValueAndClose(t, b)
      case Some((ve, end)) => Some(Groups(k, b, ve, end))
      case None => PackageFrom(t, k + 1)
    else PackageFrom(t, k + 1)
  }

  /** The match of line 128 at the start of `t`, if there is one. */
  function PackageBlock(t: string): (r: Option<Groups>)
    ensures r.Some? ==> 9 <= r.value.tag && r.value.valueEnd + 2 <= r.value.end <= |t|
  {
    if StartsWith(t, "/** @file") then PackageFrom(t, 9) else None
  }

  /** The rewrite of line 139: the match becomes groups 1 and 4, so group 2, the tag, goes. */
  function DeleteMatch(t: string): Option<Scan.Hit> {
    match PackageBlock(t)
    case None => None
    case Some(g) => Some(Scan.Hit(g.end, t[..g.tag] + t[g.valueEnd..g.end]))
  }

  /** `preg_replace($regexp, '${1}${4}', $source)` of line 139. */
  function DeletePackageTags(s: string): string {
    Scan.ReplaceAll(DeleteMatch, s)
  }

  /** `$package` of line 130: group 3 of the first match, trimmed; nothing without a match. */
  function PackageValue(s: string): Option<string> {
    match Scan.FirstFire(DeleteMatch, s, 0)
    case None => None
    case Some(i) =>
      var g := PackageBlock(s[i..]).value;
      Some(Trim(s[i..][g.value..g.valueEnd]))
  }

  // ---------------------------------------------------------------------------
  // Lines 133-135: `#^(.\?php[^\n]*\n)([^\n]*\n){3}#ms` replaced by group 1 and the
  // opening of the group. With the `m` flag `^` matches at every line start, and no
  // limit is given, so every such line is rewritten. Each `[^\n]*` must be followed by a
  // line feed, so it runs to the end of its line.

  /** The opening of group `p`, which takes the place of the three lines. */
  function GroupOpening(p: string): string {
    "/** @addtogroup " + p + " " + p + " \n * @{\n */\n"
  }

  /** The closing appended at the end of the text (line 137). */
  const GroupClosing: string := "/** @} */"

  /** Any character followed by "?php": where the pattern of line 133 can start. */
  predicate PhpAt(t: string) { 5 <= |t| && t[1..5] == "?php" }

  /** Where the line of `t` that runs through `i` ends: the `[^\n]*` of line 133 from `i`. */
  function LineEnd(t: string, i: nat): (e: nat)
    requires i <= |t|
    ensures i <= e <= |t|
    decreases |t| - i
  {
    if i == |t| || t[i] == '\n' then i else LineEnd(t, i + 1)
  }

  /** Where the first `n` lines of `z` end, just past their `n`-th line feed, if `z` has that many. */
  function LinesEnd(z: string, n: nat): (r: Option<nat>)
    ensures r.Some? ==> r.value <= |z|
    decreases n
  {
    if n == 0 then Some(0)
    else
      var e := LineEnd(z, 0);
      if e == |z| then None
      else
        match LinesEnd(z[e + 1..], n - 1)
        case None => None
        case Some(k) => Some(e + 1 + k)
  }

  /** The matcher of line 133: the `<?php` line kept, the three lines after it replaced. */
  function HeaderMatch(t: string, opening: string): Option<Scan.Hit> {
    HeaderMatchOf(t, opening, 3)
  }

  /** The same pattern with `{count}` in place of `{3}`. */
  function HeaderMatchOf(t: string, opening: string, count: nat): Option<Scan.Hit> {
    if !PhpAt(t) then None
    else
      var e0 := LineEnd(t, 5);
      if e0 == |t| then None
      else
        match LinesEnd(t[e0 + 1..], count)
        case None => None
        case Some(k) => Some(Scan.Hit(e0 + 1 + k, t[..e0 + 1] + opening))
  }

  /** `preg_replace($regphp, $replac, $source)` of line 135, for package `p`. */
  function AddGroupHeader(s: string, p: string): string {
    Scan.ReplaceAtLineStarts(t => HeaderMatch(t, GroupOpening(p)), s, true)
  }

  /** Lines 128-141: the wrap, when the first match has a non-empty package. */
  function WrapInGroup(s: string): string {
    match PackageValue(s)
    case None => s
    case Some(p) =>
      if PhpEmpty(p) then s
      else DeletePackageTags(AddGroupHeader(s, p) + GroupClosing)
  }

  // ---------------------------------------------------------------------------
  // The header.

  // A line `t[i..e]` that a line feed ends.
  lemma {:induction false} LineEndAt(t: string, i: nat, e: nat)
    requires i <= e < |t| && '\n' !in t[i..e] && t[e] == '\n'
    ensures LineEnd(t, i) == e
    decreases e - i
  {
    if i < e {
      assert t[i] == t[i..e][0];
      assert t[i + 1..e] == t[i..e][1..];
      LineEndAt(t, i + 1, e);
    }
  }

  // A line `y` and its line feed in front of `r`: the count of lines goes on in `r`.
  lemma LinesOn(z: string, y: string, r: string, n: nat, k: nat)
    requires z == y + "\n" + r && '\n' !in y && 0 < n && LinesEnd(r, n - 1) == Some(k)
    ensures LinesEnd(z, n) == Some(|y| + 1 + k)
  {
    LineEndAt(z, 0, |y|) by { assert z[0..|y|] == y; }
    assert z[|y| + 1..] == r;
  }

  // A text split at a line feed.
  lemma LineSplit(t: string, y: string, r: string)
    requires t == y + "\n" + r
    ensures |y| < |t| && t[..|y|] == y && t[|y|] == '\n' && t[|y| + 1..] == r
  {
  }

  // The lines of a header, nested from the right.
  lemma HeaderLines(first: string, y1: string, y2: string, y3: string, v: string)
    ensures first + "\n" + y1 + "\n" + y2 + "\n" + y3 + "\n" + v ==
            first + "\n" + (y1 + "\n" + (y2 + "\n" + (y3 + "\n" + v)))
  {
  }

  /** The `?php` line and the three lines after it, at the start of `w`. */
  predicate IsHeader(w: string, first: string, y1: string, y2: string, y3: string) {
    PhpAt(first + "\n") && '\n' !in first && '\n' !in y1 && '\n' !in y2 && '\n' !in y3 &&
    w == first + "\n" + y1 + "\n" + y2 + "\n" + y3 + "\n"
  }

  /** The lines `ys`, each with its line feed, in front of `v`. */
  function Lines(ys: seq<string>, v: string): (z: string)
    ensures |z| >= |v|
  {
    if ys == [] then v else ys[0] + "\n" + Lines(ys[1..], v)
  }

  // Three lines in front of `v`.
  lemma ThreeLines(y1: string, y2: string, y3: string, v: string)
    ensures Lines([y1, y2, y3], v) == y1 + "\n" + (y2 + "\n" + (y3 + "\n" + v))
  {
    assert Lines([y3], v) == y3 + "\n" + v by { assert [y3][1..] == []; }
    assert Lines([y2, y3], v) == y2 + "\n" + Lines([y3], v) by { assert [y2, y3][1..] == [y3]; }
    assert [y1, y2, y3][1..] == [y2, y3];
  }

  // The `count` (three) lines after the `?php` line.
  lemma HeaderTail(r1: string, y1: string, y2: string, y3: string, v: string, count: nat)
    requires '\n' !in y1 && '\n' !in y2 && '\n' !in y3
    requires r1 == y1 + "\n" + (y2 + "\n" + (y3 + "\n" + v)) && count == 3
    ensures LinesEnd(r1, count) == Some(|r1| - |v|)
  {
    var ys := [y1, y2, y3];
    ThreeLines(y1, y2, y3, v);
    LinesEndOn(ys, v);
  }

  /** `([^\n]*\n){n}` takes exactly the `n` lines in front of `v`. */
  lemma {:induction false} LinesEndOn(ys: seq<string>, v: string)
    requires forall i :: 0 <= i < |ys| ==> '\n' !in ys[i]
    ensures LinesEnd(Lines(ys, v), |ys|) == Some(|Lines(ys, v)| - |v|)
    decreases |ys|
  {
    if ys != [] {
      var r := Lines(ys[1..], v);
      LinesEndOn(ys[1..], v);
      LinesOn(Lines(ys, v), ys[0], r, |ys|, |r| - |v|);
    }
  }

  /** The pattern takes the `?php` line `first` and the `count` lines after it, `r1[..k]`. */
  lemma HeaderMatchOn(t: string, first: string, r1: string, count: nat, k: nat, n: nat, opening: string)
    requires PhpAt(first + "\n") && '\n' !in first
    requires |first| < |t| && t[..|first|] == first && t[|first|] == '\n' && t[|first| + 1..] == r1
    requires LinesEnd(r1, count) == Some(k) && n == |first| + 1 + k
    ensures HeaderMatchOf(t, opening, count) == Some(Scan.Hit(n, first + "\n" + opening))
  {
    var e0 := |first|;
    assert |first| >= 5 by { assert (first + "\n")[4] == (first + "\n")[1..5][3] == 'p'; }
    assert PhpAt(t) by { assert t[1..5] == t[..e0][1..5] == (first + "\n")[1..5]; }
    LineEndAt(t, 5, e0) by { assert t[5..e0] == t[..e0][5..]; }
    assert t[..e0 + 1] == first + "\n";
  }

  // The pattern with its count of three.
  lemma HeaderIs(t: string, opening: string, count: nat, h: Option<Scan.Hit>)
    requires count == 3 && HeaderMatchOf(t, opening, count) == h
    ensures HeaderMatch(t, opening) == h
  {
  }

  // No match where no `?php` line starts.
  lemma NoHeaderAt(t: string, opening: string)
    requires !PhpAt(t)
    ensures HeaderMatch(t, opening) == None
  {
  }

  /** No line of `s` looks like a `?php` line. */
  predicate NoPhpLine(s: string) {
    forall i :: 0 <= i < |s| && Scan.LineStartIn(s, true, i) ==> !PhpAt(s[i..])
  }

  /**
    * The three lines after the `?php` line give way to the opening of the group; the
    * rest of the text, where no other line looks like a `?php` line, stays as it is.
    */
  lemma HeaderReplaced(w: string, first: string, y1: string, y2: string, y3: string, body: string, p: string)
    requires IsHeader(w, first, y1, y2, y3) && NoPhpLine(body)
    ensures AddGroupHeader(w + body, p) == first + "\n" + GroupOpening(p) + body
  {
    var opening := GroupOpening(p);
    HeaderHit(w, first, y1, y2, y3, body, opening);
    assert w[|w| - 1] == '\n';
    Scan.HitAtLineStart(t => HeaderMatch(t, opening), w, body, first + "\n" + opening);
    BodyKept(body, opening);
  }

  // The header at the start of `w + body` matches exactly `w`.
  lemma HeaderHit(w: string, first: string, y1: string, y2: string, y3: string, body: string, opening: string)
    requires IsHeader(w, first, y1, y2, y3)
    ensures HeaderMatch(w + body, opening) == Some(Scan.Hit(|w|, first + "\n" + opening))
  {
    var r1 := y1 + "\n" + (y2 + "\n" + (y3 + "\n" + body));
    HeaderLines(first, y1, y2, y3, body);
    HeaderHitOn(w + body, first, r1, y1, y2, y3, body, |w|, 3, opening);
  }

  // The same, with the text split at the end of the `?php` line.
  lemma HeaderHitOn(t: string, first: string, r1: string, y1: string, y2: string, y3: string, body: string,
                    n: nat, count: nat, opening: string)
    requires PhpAt(first + "\n") && '\n' !in first && '\n' !in y1 && '\n' !in y2 && '\n' !in y3
    requires t == first + "\n" + r1 && r1 == y1 + "\n" + (y2 + "\n" + (y3 + "\n" + body))
    requires n == |t| - |body| && count == 3
    ensures HeaderMatch(t, opening) == Some(Scan.Hit(n, first + "\n" + opening))
  {
    var k := |r1| - |body|;
    assert n == |first| + 1 + k by { assert |t| == |first| + 1 + |r1|; }
    HeaderTail(r1, y1, y2, y3, body, count);
    LineSplit(t, first, r1);
    HeaderMatchOn(t, first, r1, count, k, n, opening);
    HeaderIs(t, opening, count, Some(Scan.Hit(n, first + "\n" + opening)));
  }

  // A text where no line looks like a `?php` line is kept by the anchored rewrite.
  lemma BodyKept(body: string, opening: string)
    requires NoPhpLine(body)
    ensures Scan.ReplaceAtLineStarts(t => HeaderMatch(t, opening), body, true) == body
  {
    var m := t => HeaderMatch(t, opening);
    forall i | 0 <= i < |body| && Scan.LineStartIn(body, true, i) ensures !Scan.Fires(m, body[i..]) {
      NoHeaderAt(body[i..], opening);
    }
    Scan.NoLineHitUnchanged(m, body, true);
  }

  // ---------------------------------------------------------------------------
  // A docblock that the pattern of line 128 matches.

  // The closer starts nowhere in `mid`, not even where it runs on into the closer after it.
  predicate NoCloser(mid: string) { NotStartedIn(mid, "*/") }

  // The shape of a matched docblock `x`: "/** @file", text `d` without "@package", the
  // tag, its whitespace, a value that starts on the tag's line and runs to its end, and
  // the lines `mid` up to the first "*/".
  predicate IsPackageDoc(x: string, d: string, ws: string, value: string, mid: string) {
    NotStartedIn(d, "@package") && |ws| > 0 && AllIn(ws, IsSpace) &&
    |value| > 0 && !IsSpace(value[0]) && '\n' !in value && NoCloser(mid) &&
    x == "/** @file" + d + "@package" + ws + value + "\n" + mid + "*/"
  }

  /** The docblock without its tag: groups 1 and 4. */
  function Untagged(d: string, mid: string): string {
    "/** @file" + d + "\n" + mid + "*/"
  }

  // The lazy first group passes over positions where no "@package" starts.
  lemma {:induction false} PackageFromSkips(t: string, k: nat, j: nat)
    requires k <= j <= |t|
    requires forall i :: k <= i < j ==> !StartsWith(t[i..], "@package")
    ensures PackageFrom(t, k) == PackageFrom(t, j)
    decreases j - k
  {
    if k < j {
      PackageFromSkips(t, k + 1, j);
    }
  }

  /** The groups of line 128 in a matched docblock. */
  lemma PackageBlockOn(x: string, d: string, ws: string, value: string, mid: string, v: string)
    requires IsPackageDoc(x, d, ws, value, mid)
    ensures PackageBlock(x + v) ==
            Some(Groups(9 + |d|, 17 + |d| + |ws|, 17 + |d| + |ws| + |value|, |x|))
  {
    var t := x + v;
    var k := 9 + |d|;
    var b := k + 8 + |ws|;
    var e := b + |value|;
    assert t[..|x|] == x;
    DocLead(t, x, d, ws, value, mid, k);
    DocGroups(t, x, d, ws, value, mid, k, b, e);
    BlockFrom(t, k, Groups(k, b, e, |x|));
  }

  // The match, once the lazy first group is known to stop at the tag at `k`.
  lemma BlockFrom(t: string, k: nat, g: Groups)
    requires k <= |t| && StartsWith(t, "/** @file") && PackageFrom(t, 9) == PackageFrom(t, k) == Some(g)
    ensures PackageBlock(t) == Some(g)
  {
  }

  // In a text that starts with a matched docblock, the lazy first group runs up to the tag.
  lemma DocLead(t: string, x: string, d: string, ws: string, value: string, mid: string, k: nat)
    requires IsPackageDoc(x, d, ws, value, mid) && |x| <= |t| && t[..|x|] == x && k == 9 + |d|
    ensures StartsWith(t, "/** @file") && PackageFrom(t, 9) == PackageFrom(t, k)
  {
    var head := "/** @file" + d;
    var tagged := head + "@package";
    var line := tagged + ws + value;
    assert x == line + "\n" + mid + "*/";
    assert t[..|tagged|] == tagged by { assert t[..|tagged|] == x[..|tagged|] == line[..|tagged|]; }
    assert StartsWith(t[k..], "@package") by {
      assert t[k..k + 8] == "@package" by { assert t[k..k + 8] == tagged[k..]; }
      assert t[k..][..8] == t[k..k + 8];
    }
    assert t[..9] == "/** @file" by { assert t[..9] == tagged[..9] == head[..9]; }
    DocPrefix(t, d, k);
    NotStartedAt(t, 9, d, "@package");
    PackageFromSkips(t, 9, k);
  }

  // From the tag on, the groups of a matched docblock.
  lemma DocGroups(t: string, x: string, d: string, ws: string, value: string, mid: string, k: nat, b: nat, e: nat)
    requires IsPackageDoc(x, d, ws, value, mid) && |x| <= |t| && t[..|x|] == x
    requires k == 9 + |d| && b == k + 8 + |ws| && e == b + |value|
    ensures PackageFrom(t, k) == Some(Groups(k, b, e, |x|))
  {
    var tagged := "/** @file" + d + "@package";
    var line := tagged + ws + value;
    assert x == line + "\n" + mid + "*/";
    assert StartsWith(t[k..], "@package") by {
      assert t[..|tagged|] == tagged by { assert t[..|tagged|] == x[..|tagged|] == line[..|tagged|]; }
      assert t[k..k + 8] == "@package" by { assert t[k..k + 8] == tagged[k..]; }
      assert t[k..][..8] == t[k..k + 8];
    }
    assert t[..e] == line by { assert t[..e] == x[..e]; }
    After(tagged, ws, value);
    TagLine(t, k, b, e, ws, value, line);
    After3(line, "\n", mid, "*/");
    CloseOn(t, b, e, mid, x);
    PackageAtTag(t, k, b, e, |x|);
  }

  // The match once the tag, the end of its whitespace and the groups after it are known.
  lemma PackageAtTag(t: string, k: nat, b: nat, e: nat, end: nat)
    requires k + 8 < |t| && StartsWith(t[k..], "@package") && IsSpace(t[k + 8])
    requires k + 8 <= b <= |t| && SpanEnd(t, k + 8, IsSpace) == b && ValueAndClose(t, b) == Some((e, end))
    ensures PackageFrom(t, k) == Some(Groups(k, b, e, end))
  {
  }

  // "/** @file" and `d` fill the first `k` characters.
  lemma DocPrefix(t: string, d: string, k: nat)
    requires k == 9 + |d| && k <= |t| && t[..k] == "/** @file" + d
    ensures StartsWith(t, "/** @file") && t[9..k] == d
  {
    assert t[..9] == t[..k][..9];
  }

  // The tag, its whitespace and the value on the tag's line.
  lemma TagLine(t: string, k: nat, b: nat, e: nat, ws: string, value: string, line: string)
    requires |ws| > 0 && AllIn(ws, IsSpace) && |value| > 0 && !IsSpace(value[0]) && '\n' !in value
    requires b == k + 8 + |ws| && e == b + |value| && e < |t| && t[e] == '\n'
    requires |line| == e && t[..e] == line && line[k + 8..] == ws + value
    ensures k + 8 < |t| && IsSpace(t[k + 8]) && SpanEnd(t, k + 8, IsSpace) == b
    ensures SpanEnd(t, b, NotNewline) == e && t[b..e] == value
  {
    assert t[k + 8..e] == ws + value by { assert t[k + 8..e] == line[k + 8..]; }
    SplitSlice(t, k + 8, ws, value);
    assert t[k + 8] == ws[0] && t[b] == value[0];
    SpanEndOver(t, k + 8, b, ws, IsSpace);
    SpanEndOver(t, b, e, value, NotNewline);
  }

  // From the end of the value line, the first "*/" is the one after `mid`.
  lemma CloseOn(t: string, b: nat, e: nat, mid: string, x: string)
    requires b <= e < |x| <= |t| && t[..|x|] == x && x[e..] == "\n" + mid + "*/" && NoCloser(mid)
    requires SpanEnd(t, b, NotNewline) == e
    ensures ValueAndClose(t, b) == Some((e, |x|))
  {
    var p := |x| - 2;
    assert t[e..|x|] == "\n" + mid + "*/" by { assert t[e..|x|] == x[e..]; }
    assert t[e + 1..|x|] == mid + "*/" by { assert t[e + 1..|x|] == t[e..|x|][1..]; }
    assert StartsWith(t[p..], "*/") by { assert t[p..][..2] == t[p..|x|] == t[e + 1..|x|][|mid|..]; }
    assert !StartsWith(t[e..], "*/") by { assert t[e..][0] == '\n'; }
    NotStartedAt(t, e + 1, mid, "*/");
    FindAt(t, "*/", e, p);
  }

  /** A matched docblock loses its `@package` tag, whitespace and value, and nothing else. */
  lemma DeleteMatchOn(x: string, d: string, ws: string, value: string, mid: string, v: string)
    requires IsPackageDoc(x, d, ws, value, mid)
    ensures DeleteMatch(x + v) == Some(Scan.Hit(|x|, Untagged(d, mid)))
    ensures PackageBlock(x + v).Some?
    ensures var g := PackageBlock(x + v).value; (x + v)[g.value..g.valueEnd] == value
  {
    var t := x + v;
    PackageBlockOn(x, d, ws, value, mid, v);
    var k := 9 + |d|;
    var b := k + 8 + |ws|;
    DocSlices(t, x, d, ws, value, mid, k, b, b + |value|);
  }

  // The pieces of a matched docblock at the start of `t`, as slices of `t`.
  lemma DocSlices(t: string, x: string, d: string, ws: string, value: string, mid: string, k: nat, b: nat, e: nat)
    requires IsPackageDoc(x, d, ws, value, mid) && |x| <= |t| && t[..|x|] == x
    requires k == 9 + |d| && b == k + 8 + |ws| && e == b + |value|
    ensures t[..k] + t[e..|x|] == Untagged(d, mid) && t[b..e] == value
  {
    var head := "/** @file" + d;
    var rest := "\n" + mid + "*/";
    assert x == head + "@package" + ws + value + rest;
    Middle(head + "@package" + ws, value, rest);
    assert t[..k] == head by { assert t[..k] == x[..k]; }
    assert t[e..|x|] == rest by { assert t[e..|x|] == x[e..]; }
    assert t[b..e] == value by { assert t[b..e] == x[b..e]; }
    assert Untagged(d, mid) == head + rest;
  }

  // Every match of line 128 starts with "/** @file".
  lemma DeleteLead(t: string)
    requires Scan.Fires(DeleteMatch, t)
    ensures StartsWith(t, "/** @file")
  {
  }

  // No match starts in a prefix in which "/** @file" does not start.
  lemma DeleteQuiet(u: string, x: string, v: string)
    requires NotStartedIn(u, "/** @file") && StartsWith(x + v, "/** @file")
    ensures Scan.NoHitBefore(DeleteMatch, u + x + v, |u|)
  {
    var s := u + x + v;
    NotStartedBefore(u, x + v, "/** @file");
    assert u + (x + v) == s;
    forall i | 0 <= i < |u| ensures !Scan.Fires(DeleteMatch, s[i..]) {
      if Scan.Fires(DeleteMatch, s[i..]) { DeleteLead(s[i..]); }
    }
  }

  /** The first matched docblock gives the package: its value, trimmed. */
  lemma PackageValueOn(u: string, x: string, d: string, ws: string, value: string, mid: string, v: string)
    requires NotStartedIn(u, "/** @file") && IsPackageDoc(x, d, ws, value, mid)
    ensures PackageValue(u + x + v) == Some(Trim(value))
  {
    var s := u + x + v;
    DeleteMatchOn(x, d, ws, value, mid, v);
    DeleteLead(x + v);
    DeleteQuiet(u, x, v);
    assert s[|u|..] == x + v;
    Scan.FirstFireIs(DeleteMatch, s, |u|);
  }

  // Each matched docblock loses its `@package` tag; the scan resumes after its "*/".
  lemma PackageTagDeleted(u: string, x: string, d: string, ws: string, value: string, mid: string, v: string)
    requires NotStartedIn(u, "/** @file") && IsPackageDoc(x, d, ws, value, mid)
    ensures DeletePackageTags(u + x + v) == u + Untagged(d, mid) + DeletePackageTags(v)
  {
    DeleteMatchOn(x, d, ws, value, mid, v);
    DeleteLead(x + v);
    DeleteQuiet(u, x, v);
    Scan.HitAfter(DeleteMatch, u, x, v, Untagged(d, mid));
  }

  // A text in which "/** @file" starts nowhere has no package and is left unchanged.
  lemma NoFileDocUnwrapped(s: string)
    requires forall i :: 0 <= i < |s| ==> !StartsWith(s[i..], "/** @file")
    ensures PackageValue(s) == None && WrapInGroup(s) == s
  {
    forall i | 0 <= i <= |s| ensures !Scan.Fires(DeleteMatch, s[i..]) {
      if Scan.Fires(DeleteMatch, s[i..]) { DeleteLead(s[i..]); }
    }
  }

  // Without a `/** @file` docblock the deletion of line 139 changes nothing either.
  lemma NoFileDocKept(s: string)
    requires forall i :: 0 <= i < |s| ==> !StartsWith(s[i..], "/** @file")
    ensures DeletePackageTags(s) == s
  {
    forall i | 0 <= i <= |s| ensures !Scan.Fires(DeleteMatch, s[i..]) {
      if Scan.Fires(DeleteMatch, s[i..]) { DeleteLead(s[i..]); }
    }
    Scan.NoHitUnchanged(DeleteMatch, s);
  }

  /**
    * The whole wrap: the three lines after the `?php` line give way to the opening of the
    * group named by the trimmed package, the closing goes at the end, and the `@package`
    * line leaves the docblock.
    */
  lemma GroupWrapped(w: string, first: string, y1: string, y2: string, y3: string,
                     u: string, x: string, d: string, ws: string, value: string, mid: string, rest: string)
    requires IsHeader(w, first, y1, y2, y3) && NoPhpLine(u + x + rest)
    requires IsPackageDoc(x, d, ws, value, mid) && !PhpEmpty(Trim(value))
    requires NotStartedIn(w + u, "/** @file")
    requires NotStartedIn(first + "\n" + GroupOpening(Trim(value)) + u, "/** @file")
    requires forall i :: 0 <= i < |rest + GroupClosing| ==> !StartsWith((rest + GroupClosing)[i..], "/** @file")
    ensures WrapInGroup(w + u + x + rest) ==
            first + "\n" + GroupOpening(Trim(value)) + u + Untagged(d, mid) + rest + GroupClosing
  {
    var p := Trim(value);
    var body := u + x + rest;
    var s := w + u + x + rest;
    Nest3(w, u, x, rest);
    var h := first + "\n" + GroupOpening(p);
    var tail := rest + GroupClosing;
    var out := h + u + Untagged(d, mid) + tail;
    PackageValueOn(w + u, x, d, ws, value, mid, rest);
    HeaderReplaced(w, first, y1, y2, y3, body, p);
    assert DeletePackageTags(h + body + GroupClosing) == out by {
      Spliced(h, u, x, rest, GroupClosing);
      PackageTagDeleted(h + u, x, d, ws, value, mid, tail);
      NoFileDocKept(tail);
    }
    WrapOn(s, p, h + body, out);
    Reassoc(WrapInGroup(s), h + u + Untagged(d, mid), rest, GroupClosing);
  }

  // The text once the header is in and the closing appended, grouped around the docblock.
  lemma Spliced(h: string, u: string, x: string, rest: string, g: string)
    ensures h + (u + x + rest) + g == h + u + x + (rest + g)
  {
  }

  // The wrap once its three steps are known.
  lemma WrapOn(s: string, p: string, s1: string, out: string)
    requires PackageValue(s) == Some(p) && !PhpEmpty(p) && AddGroupHeader(s, p) == s1
    requires DeletePackageTags(s1 + GroupClosing) == out
    ensures WrapInGroup(s) == out
  {
  }
}
