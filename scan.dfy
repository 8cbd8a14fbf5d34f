/**
  * The two ways the filter applies a pattern to the whole text: `preg_match`, which asks
  * whether the pattern matches anywhere, and `preg_replace` / `preg_replace_callback`
  * without a limit, which rewrites every leftmost, non-overlapping match from left to
  * right. A pattern is given by its matcher: a function that looks at the text from the
  * current scan position on and says whether a match starts there, how long it is and
  * what replaces it.
  */
module Scan {
  import opened Wrappers
  import Text

  /** A match at the start of the remaining text: its length and its replacement. */
  datatype Hit = Hit(len: nat, repl: string)

  /** The matcher finds a match at the start of `t` that consumes at least one character. */
  predicate Fires(m: string -> Option<Hit>, t: string) {
    m(t).Some? && 0 < m(t).value.len <= |t|
  }

  /** No match starts at any of the first `k` positions of `s`. */
  predicate NoHitBefore(m: string -> Option<Hit>, s: string, k: nat) {
    forall i :: 0 <= i < k && i <= |s| ==> !Fires(m, s[i..])
  }

  /**
    * `preg_replace(pattern, replacement, s)`: at each scan position either a match starts,
    * which is replaced and skipped, or the character there is kept and the scan moves on
    * by one.
    */
  function ReplaceAll(m: string -> Option<Hit>, s: string): string
    decreases |s|
  {
    if s == [] then []
    else if Fires(m, s) then m(s).value.repl + ReplaceAll(m, s[m(s).value.len..])
    else [s[0]] + ReplaceAll(m, s[1..])
  }

  /** Text before the first match is copied unchanged. */
  lemma {:induction false} KeepsQuietPrefix(m: string -> Option<Hit>, s: string, k: nat)
    requires k <= |s|
    requires NoHitBefore(m, s, k)
    ensures ReplaceAll(m, s) == s[..k] + ReplaceAll(m, s[k..])
    decreases k
  {
    if k > 0 {
      assert ReplaceAll(m, s) == [s[0]] + ReplaceAll(m, s[1..]) by {
        assert s[0..] == s;
        assert !Fires(m, s);
      }
      assert NoHitBefore(m, s[1..], k - 1) by {
        forall i | 0 <= i < k - 1 && i <= |s[1..]|
          ensures !Fires(m, s[1..][i..])
        {
          assert s[1..][i..] == s[i + 1..];
        }
      }
      KeepsQuietPrefix(m, s[1..], k - 1);
      assert s[1..][k - 1..] == s[k..];
      assert s[..k] == [s[0]] + s[1..][..k - 1];
      Text.Reassoc(ReplaceAll(m, s), [s[0]], s[1..][..k - 1], ReplaceAll(m, s[k..]));
    }
  }

  /** A text in which the pattern matches nowhere is left exactly as it is. */
  lemma NoHitUnchanged(m: string -> Option<Hit>, s: string)
    requires NoHitBefore(m, s, |s|)
    ensures ReplaceAll(m, s) == s
  {
    KeepsQuietPrefix(m, s, |s|);
  }

  /** The first match is replaced, the text before it is kept, and the scan resumes after it. */
  lemma FirstHit(m: string -> Option<Hit>, s: string, k: nat)
    requires k < |s|
    requires NoHitBefore(m, s, k)
    requires Fires(m, s[k..])
    ensures ReplaceAll(m, s) ==
              s[..k] + m(s[k..]).value.repl + ReplaceAll(m, s[k + m(s[k..]).value.len..])
  {
    var t := s[k..];
    var h := m(t).value;
    var rest := s[k + h.len..];
    KeepsQuietPrefix(m, s, k);
    assert t[h.len..] == rest;
    FireStep(m, t, rest);
    Text.Reassoc(ReplaceAll(m, s), s[..k], h.repl, ReplaceAll(m, rest));
  }

  // One replacement step, where a match starts.
  lemma FireStep(m: string -> Option<Hit>, t: string, rest: string)
    requires Fires(m, t) && t[m(t).value.len..] == rest
    ensures ReplaceAll(m, t) == m(t).value.repl + ReplaceAll(m, rest)
  {
  }

  /** A match whose replacement starts with the first `b` characters keeps any prefix of them. */
  lemma FireKeepsPrefix(m: string -> Option<Hit>, s: string, n: nat, b: nat, w: string)
    requires Fires(m, s) && n <= b <= |s| && m(s).value.repl == s[..b] + w
    ensures exists r :: ReplaceAll(m, s) == s[..n] + r
  {
    var h := m(s).value;
    var rest := ReplaceAll(m, s[h.len..]);
    assert ReplaceAll(m, s) == h.repl + rest;
    var r := s[n..b] + w + rest;
    assert s[..b] + w + rest == s[..n] + r by { assert s[..b] == s[..n] + s[n..b]; }
  }

  /** Where no match starts, the first character is kept, so a kept prefix of the rest grows by it. */
  lemma QuietKeepsPrefix(m: string -> Option<Hit>, p: string, q: string, r: string)
    requires |p| > 0 && !Fires(m, p + q) && ReplaceAll(m, p[1..] + q) == p[1..] + r
    ensures ReplaceAll(m, p + q) == p + r
  {
    var s := p + q;
    assert s[0] == p[0] && s[1..] == p[1..] + q;
    assert [p[0]] + (p[1..] + r) == p + r;
  }

  /**
    * The same, for a text given as the quiet part `u`, the matched part `w` and the rest
    * `v`: the result is `u`, the replacement of `w`, and the rewritten rest.
    */
  lemma HitAfter(m: string -> Option<Hit>, u: string, w: string, v: string, r: string)
    requires NoHitBefore(m, u + w + v, |u|)
    requires |w| > 0 && m(w + v) == Some(Hit(|w|, r))
    ensures ReplaceAll(m, u + w + v) == u + r + ReplaceAll(m, v)
  {
    var s := u + w + v;
    assert s[|u|..] == w + v;
    FirstHit(m, s, |u|);
    assert s[|u| + |w|..] == v;
    assert s[..|u|] == u;
  }

  /** A prefix in which no match starts is copied unchanged. */
  lemma QuietPrefix(m: string -> Option<Hit>, u: string, v: string)
    requires NoHitBefore(m, u + v, |u|)
    ensures ReplaceAll(m, u + v) == u + ReplaceAll(m, v)
  {
    KeepsQuietPrefix(m, u + v, |u|);
    assert (u + v)[..|u|] == u && (u + v)[|u|..] == v;
  }

  /**
    * When every match begins with a character that `lead` accepts, no match can start
    * where no such character stands.
    */
  lemma QuietWithoutLead(m: string -> Option<Hit>, lead: char -> bool, s: string, k: nat)
    requires forall t :: Fires(m, t) ==> lead(t[0])
    requires forall i :: 0 <= i < k && i < |s| ==> !lead(s[i])
    ensures NoHitBefore(m, s, k)
  {
    forall i | 0 <= i < k && i <= |s|
      ensures !Fires(m, s[i..])
    {
      if i < |s| { assert s[i..][0] == s[i]; }
    }
  }

  /**
    * When every match begins with the literal `lit`, no match starts in a prefix where
    * `lit` does not start, if the text after the prefix begins with `lit` itself.
    */
  lemma QuietBeforeLiteral(m: string -> Option<Hit>, lit: string, u: string, w: string)
    requires forall t :: Fires(m, t) ==> Text.StartsWith(t, lit)
    requires Text.NotStartedIn(u, lit) && Text.StartsWith(w, lit)
    ensures NoHitBefore(m, u + w, |u|)
  {
    Text.NotStartedBefore(u, w, lit);
  }

  /**
    * Where `preg_match` finds its match: the first position at or after `k` where the
    * matcher fires.
    */
  function FirstFire(m: string -> Option<Hit>, s: string, k: nat): (r: Option<nat>)
    requires k <= |s|
    ensures r.Some? ==> k <= r.value < |s| && Fires(m, s[r.value..])
    ensures r.Some? ==> forall i :: k <= i < r.value ==> !Fires(m, s[i..])
    ensures r.None? ==> forall i :: k <= i <= |s| ==> !Fires(m, s[i..])
    decreases |s| - k
  {
    if k == |s| then None
    else if Fires(m, s[k..]) then Some(k)
    else FirstFire(m, s, k + 1)
  }

  /** The first match is the one at `k` when none starts before it. */
  lemma FirstFireIs(m: string -> Option<Hit>, s: string, k: nat)
    requires k < |s| && NoHitBefore(m, s, k) && Fires(m, s[k..])
    ensures FirstFire(m, s, 0) == Some(k)
  {
  }

  /**
    * `preg_replace` of a pattern that starts with `^` under the `m` flag: a match may
    * start only where a line starts, which `lineStart` says of the first position.
    */
  function ReplaceAtLineStarts(m: string -> Option<Hit>, s: string, lineStart: bool): string
    decreases |s|
  {
    if s == [] then []
    else if lineStart && Fires(m, s) then
      m(s).value.repl + ReplaceAtLineStarts(m, s[m(s).value.len..], s[m(s).value.len - 1] == '\n')
    else [s[0]] + ReplaceAtLineStarts(m, s[1..], s[0] == '\n')
  }

  /** The positions of `s` at which a line starts; the first one when `lineStart` holds. */
  predicate LineStartIn(s: string, lineStart: bool, i: nat) {
    i <= |s| && (if i == 0 then lineStart else s[i - 1] == '\n')
  }

  /** No match at any line start: the anchored rewrite leaves the text as it is. */
  lemma {:induction false} NoLineHitUnchanged(m: string -> Option<Hit>, s: string, lineStart: bool)
    requires forall i :: 0 <= i < |s| && LineStartIn(s, lineStart, i) ==> !Fires(m, s[i..])
    ensures ReplaceAtLineStarts(m, s, lineStart) == s
    decreases |s|
  {
    if s != [] {
      assert s[0..] == s;
      assert !(lineStart && Fires(m, s));
      forall i | 0 <= i < |s[1..]| && LineStartIn(s[1..], s[0] == '\n', i)
        ensures !Fires(m, s[1..][i..])
      {
        assert s[1..][i..] == s[i + 1..];
        assert LineStartIn(s, lineStart, i + 1);
      }
      NoLineHitUnchanged(m, s[1..], s[0] == '\n');
      assert [s[0]] + s[1..] == s;
    }
  }

  /** A match of whole lines at a line start is replaced, and the next line starts after it. */
  lemma HitAtLineStart(m: string -> Option<Hit>, w: string, v: string, r: string)
    requires |w| > 0 && w[|w| - 1] == '\n' && m(w + v) == Some(Hit(|w|, r))
    ensures ReplaceAtLineStarts(m, w + v, true) == r + ReplaceAtLineStarts(m, v, true)
  {
    assert (w + v)[|w|..] == v && (w + v)[|w| - 1] == '\n';
  }

  /** `preg_match(pattern, s) !== 0`, where `at` tells whether the pattern matches at the start of its argument. */
  function Anywhere(at: string -> bool, s: string): (b: bool)
    ensures b <==> exists i :: 0 <= i <= |s| && at(s[i..])
    decreases |s|
  {
    if at(s) then
      assert at(s[0..]) by { assert s[0..] == s; }
      true
    else if s == [] then false
    else
      var rest := Anywhere(at, s[1..]);
      assert rest ==> exists i :: 0 <= i <= |s| && at(s[i..]) by {
        if rest {
          var j :| 0 <= j <= |s[1..]| && at(s[1..][j..]);
          assert s[1..][j..] == s[j + 1..];
        }
      }
      assert (exists i :: 0 <= i <= |s| && at(s[i..])) ==> rest by {
        if exists i :: 0 <= i <= |s| && at(s[i..]) {
          var i :| 0 <= i <= |s| && at(s[i..]);
          assert i != 0 by { assert s[0..] == s; }
          assert s[1..][i - 1..] == s[i..];
        }
      }
      rest
  }
}
