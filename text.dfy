/**
  * Character classes and scanning primitives shared by the gatekeeper and by every
  * rewrite rule of the filter. Each primitive stands for one piece of a PCRE pattern:
  * a greedy run of a character class, a lazy `.*?` search for a literal, PHP's
  * `str_replace` and `trim`.
  */
module Text {
  import opened Wrappers

  /** PCRE's `\s`: space, tab, line feed, vertical tab, form feed, carriage return. */
  predicate IsSpace(c: char) {
    c == ' ' || c == '\t' || c == '\n' || c == '\U{B}' || c == '\U{C}' || c == '\r'
  }

  /** PCRE's `\S`. */
  predicate NotSpace(c: char) { !IsSpace(c) }

  /** `.` without the `s` flag, and the class `[^\n]`. */
  predicate NotNewline(c: char) { c != '\n' }

  /** PCRE's `\d`. */
  predicate IsDigit(c: char) { '0' <= c <= '9' }

  /** The class `[a-zA-Z]`. */
  predicate IsLetter(c: char) { 'a' <= c <= 'z' || 'A' <= c <= 'Z' }

  /** PCRE's `\w`, the characters a `\b` boundary separates from the others. */
  predicate IsWordChar(c: char) { IsLetter(c) || IsDigit(c) || c == '_' }

  /** `w` is a prefix of `t`: the literal `w` matches at the start of `t`. */
  predicate StartsWith(t: string, w: string) {
    |w| <= |t| && t[..|w|] == w
  }

  /** A text that starts with a literal starts with the literal's first character. */
  lemma LeadOf(t: string, w: string)
    requires |w| > 0
    ensures StartsWith(t, w) ==> t[0] == w[0]
  {
    if StartsWith(t, w) { assert t[0] == t[..|w|][0]; }
  }

  /** A literal that differs from `t` at one position does not start it. */
  lemma Differs(t: string, w: string, i: nat)
    requires i < |w| && i < |t| && t[i] != w[i]
    ensures !StartsWith(t, w)
  {
    if |w| <= |t| { assert t[..|w|][i] == t[i]; }
  }

  /** Every character of `s` belongs to the class. */
  predicate AllIn(s: string, inClass: char -> bool) {
    forall k :: 0 <= k < |s| ==> inClass(s[k])
  }

  /** No line feed among `t[a..b]`: a `.`-only stretch of a pattern may span it. */
  predicate NoNewline(t: string, a: nat, b: nat) {
    forall k :: a <= k < b && k < |t| ==> t[k] != '\n'
  }

  /**
    * The end of the longest run of class characters starting at `i`: what a greedy
    * `[class]*` starting at `i` consumes.
    */
  function SpanEnd(t: string, i: nat, inClass: char -> bool): (e: nat)
    requires i <= |t|
    ensures i <= e <= |t|
    ensures forall k :: i <= k < e ==> inClass(t[k])
    ensures e == |t| || !inClass(t[e])
    decreases |t| - i
  {
    if i == |t| || !inClass(t[i]) then i else SpanEnd(t, i + 1, inClass)
  }

  /**
    * A greedy quantifier that gives characters back one at a time: of the ends from `k`
    * down to `lo`, the first at which the rest of the pattern (`fits`) matches.
    */
  function LastFit(lo: nat, k: nat, fits: nat -> bool): (r: Option<nat>)
    ensures r.Some? ==> lo <= r.value <= k && fits(r.value)
    ensures r.Some? ==> forall j :: r.value < j <= k ==> !fits(j)
    ensures r.None? ==> forall j :: lo <= j <= k ==> !fits(j)
    decreases k
  {
    if k < lo then None
    else if fits(k) then Some(k)
    else if k == lo then None
    else LastFit(lo, k - 1, fits)
  }

  /** A greedy quantifier keeps its largest end when the rest of the pattern fits there. */
  lemma LastFitTop(lo: nat, k: nat, fits: nat -> bool)
    requires lo <= k && fits(k)
    ensures LastFit(lo, k, fits) == Some(k)
  {
  }

  /** When the rest does not fit at the largest end, it gives back one character. */
  lemma LastFitBack(lo: nat, k: nat, fits: nat -> bool)
    requires lo < k && !fits(k) && fits(k - 1)
    ensures LastFit(lo, k, fits) == Some(k - 1)
  {
  }

  /** When the rest fits at no end, the quantifier fails. */
  lemma {:induction false} LastFitNone(lo: nat, k: nat, fits: nat -> bool)
    requires forall j :: lo <= j <= k ==> !fits(j)
    ensures LastFit(lo, k, fits) == None
    decreases k
  {
    if lo < k { LastFitNone(lo, k - 1, fits); }
  }

  /** Every character of `t[x..y]` belongs to the class. */
  predicate Within(t: string, x: nat, y: nat, inClass: char -> bool) {
    x <= y <= |t| && forall k :: x <= k < y ==> inClass(t[k])
  }

  /** A run of the class up to a character outside it ends where `SpanEnd` says. */
  lemma SpanAt(t: string, x: nat, y: nat, inClass: char -> bool)
    requires Within(t, x, y, inClass) && (y == |t| || !inClass(t[y]))
    ensures SpanEnd(t, x, inClass) == y
  {
    SpanEndIs(t, x, y, inClass);
  }

  /** A piece of a concatenation lies within the class its characters are in. */
  lemma WithinOf(t: string, pre: string, seg: string, post: string, inClass: char -> bool)
    requires t == pre + seg + post && AllIn(seg, inClass)
    ensures Within(t, |pre|, |pre| + |seg|, inClass) && t[|pre|..|pre| + |seg|] == seg
  {
    Middle(pre, seg, post);
    forall k | |pre| <= k < |pre| + |seg| ensures inClass(t[k]) { assert t[k] == seg[k - |pre|]; }
  }

  /** A run of class characters that nothing of the class follows ends where `SpanEnd` says. */
  lemma SpanEndIs(t: string, i: nat, e: nat, inClass: char -> bool)
    requires i <= e <= |t|
    requires forall k :: i <= k < e ==> inClass(t[k])
    requires e == |t| || !inClass(t[e])
    ensures SpanEnd(t, i, inClass) == e
  {
  }

  /** A run of class characters spelled out by `seg` ends where the class stops. */
  lemma SpanEndOver(t: string, x: nat, y: nat, seg: string, inClass: char -> bool)
    requires x <= y <= |t| && t[x..y] == seg && AllIn(seg, inClass)
    requires y == |t| || !inClass(t[y])
    ensures SpanEnd(t, x, inClass) == y
  {
    forall k | x <= k < y ensures inClass(t[k]) { assert t[k] == seg[k - x]; }
    SpanEndIs(t, x, y, inClass);
  }

  /** The middle part of a concatenation sits between the lengths of the outer parts. */
  lemma Middle(a: string, b: string, c: string)
    ensures |a| + |b| <= |a + b + c| && (a + b + c)[|a|..|a| + |b|] == b
  {
  }

  /** The three pieces of a concatenation, as slices of it. */
  lemma Framed(t: string, a: string, b: string, c: string)
    requires t == a + b + c
    ensures t[..|a|] == a && t[|a|..|a| + |b|] == b && t[|a| + |b|..] == c
  {
  }

  /** Five pieces joined in a row are the first two, the third and the last two. */
  lemma Regroup(a: string, b: string, c: string, d: string, e: string)
    ensures a + b + c + d + e == (a + b) + c + (d + e)
  {
  }

  /** Five pieces joined after a prefix are the prefix and the five joined. */
  lemma Nest(u: string, a: string, b: string, c: string, d: string, e: string)
    ensures u + a + b + c + d + e == u + (a + b + c + d + e)
  {
  }

  /** Three pieces joined after a prefix are the prefix and the three joined. */
  lemma Nest3(u: string, a: string, b: string, c: string)
    ensures u + a + b + c == u + (a + b + c)
  {
  }

  /** A piece made of two parts may be joined part by part. */
  lemma Glue(z: string, u: string, x: string, c: string, y: string)
    requires z == u + (x + c) + y
    ensures z == u + x + c + y
  {
  }

  /** A concatenation may be regrouped to the left. */
  lemma Reassoc(z: string, a: string, b: string, c: string)
    requires z == a + (b + c)
    ensures z == a + b + c
  {
  }

  /** What follows the first piece of a concatenation. */
  lemma After(a: string, b: string, c: string)
    ensures (a + b + c)[|a|..] == b + c
  {
  }

  /** What follows the first piece of a longer concatenation. */
  lemma After3(a: string, b: string, c: string, d: string)
    ensures (a + b + c + d)[|a|..] == b + c + d
  {
  }

  /** A stretch of `t` that spells `a + b` spells `a` and then `b`. */
  lemma SplitSlice(t: string, i: nat, a: string, b: string)
    requires i + |a| + |b| <= |t| && t[i..i + |a| + |b|] == a + b
    ensures t[i..i + |a|] == a && t[i + |a|..i + |a| + |b|] == b
  {
    var w := t[i..i + |a| + |b|];
    assert t[i..i + |a|] == w[..|a|];
    assert t[i + |a|..i + |a| + |b|] == w[|a|..];
  }

  /** The first occurrence of `w` at or after `i`: a lazy `.*?w` with the `s` flag. */
  function Find(t: string, w: string, i: nat): (r: Option<nat>)
    requires i <= |t|
    ensures r.Some? ==> i <= r.value <= |t| && StartsWith(t[r.value..], w)
    ensures r.Some? ==> forall k :: i <= k < r.value ==> !StartsWith(t[k..], w)
    ensures r.None? ==> forall k :: i <= k <= |t| ==> !StartsWith(t[k..], w)
    decreases |t| - i
  {
    if StartsWith(t[i..], w) then Some(i)
    else if i == |t| then None
    else Find(t, w, i + 1)
  }

  /**
    * The first occurrence of `w` at or after `i` that no line feed separates from `i`:
    * a lazy `.*?w` without the `s` flag.
    */
  function FindOnLine(t: string, w: string, i: nat): (r: Option<nat>)
    requires i <= |t|
    ensures r.Some? ==> i <= r.value <= |t| && StartsWith(t[r.value..], w) && NoNewline(t, i, r.value)
    ensures r.Some? ==> forall k :: i <= k < r.value ==> !StartsWith(t[k..], w)
    ensures r.None? ==> forall k :: i <= k <= |t| && NoNewline(t, i, k) ==> !StartsWith(t[k..], w)
    decreases |t| - i
  {
    if StartsWith(t[i..], w) then Some(i)
    else if i == |t| || t[i] == '\n' then None
    else FindOnLine(t, w, i + 1)
  }

  /** The first occurrence of `w` from `i` is the one at `j` when none starts before it. */
  lemma FindAt(t: string, w: string, i: nat, j: nat)
    requires i <= j <= |t| && StartsWith(t[j..], w)
    requires forall k :: i <= k < j ==> !StartsWith(t[k..], w)
    ensures Find(t, w, i) == Some(j)
  {
  }

  /** The first `w` on the line from `i` is the one at `j` when none starts before it. */
  lemma FindOnLineAt(t: string, w: string, i: nat, j: nat)
    requires i <= j <= |t| && StartsWith(t[j..], w) && NoNewline(t, i, j)
    requires forall k :: i <= k < j ==> !StartsWith(t[k..], w)
    ensures FindOnLine(t, w, i) == Some(j)
  {
  }

  /** With no occurrence on the line, the lazy search fails. */
  lemma FindOnLineNone(t: string, w: string, i: nat)
    requires i <= |t|
    requires forall k :: i <= k <= |t| && NoNewline(t, i, k) ==> !StartsWith(t[k..], w)
    ensures FindOnLine(t, w, i) == None
  {
  }

  /**
    * The literal starts nowhere in `u`, not even where it would run on into a copy of
    * itself placed after `u`.
    */
  predicate NotStartedIn(u: string, lit: string) {
    forall i :: 0 <= i < |u| ==> !StartsWith((u + lit)[i..], lit)
  }

  /** Then it starts nowhere in `u` whatever follows, as long as the literal does. */
  lemma NotStartedBefore(u: string, w: string, lit: string)
    requires NotStartedIn(u, lit) && StartsWith(w, lit)
    ensures forall i :: 0 <= i < |u| ==> !StartsWith((u + w)[i..], lit)
  {
    var a := u + lit;
    assert u + w == a + w[|lit|..] by { assert w == lit + w[|lit|..]; }
    forall i | 0 <= i < |u|
      ensures !StartsWith((u + w)[i..], lit)
    {
      assert (u + w)[i..][..|lit|] == a[i..][..|lit|];
    }
  }

  /** So the literal starts nowhere in a stretch of `t` spelling `u` that the literal follows. */
  lemma NotStartedAt(t: string, a: nat, u: string, lit: string)
    requires a + |u| <= |t| && t[a..a + |u|] == u && NotStartedIn(u, lit) && StartsWith(t[a + |u|..], lit)
    ensures forall i :: a <= i < a + |u| ==> !StartsWith(t[i..], lit)
  {
    var w := t[a + |u|..];
    NotStartedBefore(u, w, lit);
    assert u + w == t[a..];
    forall i | a <= i < a + |u| ensures !StartsWith(t[i..], lit) {
      assert t[i..] == (u + w)[i - a..];
    }
  }

  /** PHP's `str_replace('\\', '::', s)`: every backslash becomes the scope separator `::`. */
  function ScopeSeparators(s: string): (r: string)
    ensures '\\' !in r
    ensures '\\' !in s ==> r == s
    ensures |r| >= |s|
  {
    if s == [] then []
    else (if s[0] == '\\' then "::" else [s[0]]) + ScopeSeparators(s[1..])
  }

  /** `str_replace` works character by character, so it distributes over concatenation. */
  lemma {:induction false} ScopeSeparatorsAppend(a: string, b: string)
    ensures ScopeSeparators(a + b) == ScopeSeparators(a) + ScopeSeparators(b)
    decreases |a|
  {
    if a == [] {
      assert a + b == b;
    } else {
      var head := if a[0] == '\\' then "::" else [a[0]];
      assert (a + b)[0] == a[0] && (a + b)[1..] == a[1..] + b;
      ScopeSeparatorsAppend(a[1..], b);
      calc {
        ScopeSeparators(a + b);
        head + ScopeSeparators(a[1..] + b);
        head + (ScopeSeparators(a[1..]) + ScopeSeparators(b));
        (head + ScopeSeparators(a[1..])) + ScopeSeparators(b);
      }
    }
  }

  /** The separator `::` is no whitespace, so a word stays one word. */
  lemma {:induction false} ScopeSeparatorsWord(s: string)
    requires AllIn(s, NotSpace)
    ensures AllIn(ScopeSeparators(s), NotSpace)
    decreases |s|
  {
    if s != [] {
      assert AllIn(s[1..], NotSpace) by { forall k | 0 <= k < |s| - 1 ensures NotSpace(s[1..][k]) { assert s[1..][k] == s[k + 1]; } }
      ScopeSeparatorsWord(s[1..]);
      var head := if s[0] == '\\' then "::" else [s[0]];
      assert ScopeSeparators(s) == head + ScopeSeparators(s[1..]);
    }
  }

  /** The characters PHP's `trim` strips by default: " \t\n\r\0\x0B". */
  predicate IsTrimmed(c: char) {
    c == ' ' || c == '\t' || c == '\n' || c == '\r' || c == '\0' || c == '\U{B}'
  }

  /** The start of the trailing run of trimmable characters of `s[..j]`. */
  function TrailStart(s: string, j: nat): (b: nat)
    requires j <= |s|
    ensures b <= j
    ensures forall k :: b <= k < j ==> IsTrimmed(s[k])
    ensures b == 0 || !IsTrimmed(s[b - 1])
  {
    if j == 0 || !IsTrimmed(s[j - 1]) then j else TrailStart(s, j - 1)
  }

  /**
    * PHP's `trim`: `s` without its leading and trailing trimmable characters. The result
    * is the slice of `s` that only trimmable characters surround and that neither starts
    * nor ends with one; `TrimUnique` shows that only one slice is such.
    */
  function Trim(s: string): (r: string)
    ensures r == [] || (!IsTrimmed(r[0]) && !IsTrimmed(r[|r| - 1]))
    ensures exists a, b :: 0 <= a <= b <= |s| && r == s[a..b] && AllIn(s[..a], IsTrimmed) && AllIn(s[b..], IsTrimmed)
    ensures (s == [] || (!IsTrimmed(s[0]) && !IsTrimmed(s[|s| - 1]))) ==> r == s
    ensures AllIn(s, IsTrimmed) ==> r == []
  {
    var a := SpanEnd(s, 0, IsTrimmed);
    var b := if a == |s| then a else TrailStart(s, |s|);
    assert a < |s| ==> !IsTrimmed(s[a]);
    assert AllIn(s[..a], IsTrimmed) by { forall k | 0 <= k < a ensures IsTrimmed(s[..a][k]) { assert s[..a][k] == s[k]; } }
    assert AllIn(s[b..], IsTrimmed) by { forall k | 0 <= k < |s| - b ensures IsTrimmed(s[b..][k]) { assert s[b..][k] == s[b + k]; } }
    s[a..b]
  }

  /** Only one slice of `s` is surrounded by trimmable characters and has none at its ends. */
  lemma TrimUnique(s: string, a: nat, b: nat)
    requires a <= b <= |s| && AllIn(s[..a], IsTrimmed) && AllIn(s[b..], IsTrimmed)
    requires a == b || (!IsTrimmed(s[a]) && !IsTrimmed(s[b - 1]))
    ensures Trim(s) == s[a..b]
  {
    var a' := SpanEnd(s, 0, IsTrimmed);
    var b' := if a' == |s| then a' else TrailStart(s, |s|);
    assert Trim(s) == s[a'..b'];
    assert AllIn(s[..a'], IsTrimmed) by { forall k | 0 <= k < a' ensures IsTrimmed(s[..a'][k]) { assert s[..a'][k] == s[k]; } }
    assert AllIn(s[b'..], IsTrimmed) by { forall k | 0 <= k < |s| - b' ensures IsTrimmed(s[b'..][k]) { assert s[b'..][k] == s[b' + k]; } }
    SameSlice(s, a, b, a', b');
  }

  // Two slices that both satisfy the premise of `TrimUnique` are the same slice.
  lemma SameSlice(s: string, a: nat, b: nat, a': nat, b': nat)
    requires a <= b <= |s| && AllIn(s[..a], IsTrimmed) && AllIn(s[b..], IsTrimmed)
    requires a == b || (!IsTrimmed(s[a]) && !IsTrimmed(s[b - 1]))
    requires a' <= b' <= |s| && AllIn(s[..a'], IsTrimmed) && AllIn(s[b'..], IsTrimmed)
    requires a' == b' || (!IsTrimmed(s[a']) && !IsTrimmed(s[b' - 1]))
    ensures s[a..b] == s[a'..b']
  {
    if a' < b' {
      if a < b {
        KeptAfter(s, a', a);
        KeptAfter(s, a, a');
        KeptBefore(s, b', b - 1);
        KeptBefore(s, b, b' - 1);
      } else {
        KeptAfter(s, a, a');
        KeptBefore(s, b, a');
      }
    } else if a < b {
      KeptAfter(s, a', a);
      KeptBefore(s, b', a);
    }
  }

  // A character that is not trimmable lies after a trimmable prefix `s[..a]`.
  lemma KeptAfter(s: string, a: nat, k: nat)
    requires a <= |s| && AllIn(s[..a], IsTrimmed) && k < |s| && !IsTrimmed(s[k])
    ensures a <= k
  {
  }

  // A character that is not trimmable lies before a trimmable suffix `s[b..]`.
  lemma KeptBefore(s: string, b: nat, k: nat)
    requires b <= |s| && AllIn(s[b..], IsTrimmed) && k < |s| && !IsTrimmed(s[k])
    ensures k < b
  {
  }

  /** PHP's `empty` on a string: the empty string and "0" both count as empty. */
  predicate PhpEmpty(s: string) {
    s == "" || s == "0"
  }
}
