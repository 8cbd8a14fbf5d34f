# doxygen-filter, modelled in Dafny

`phpdocs/doxygen-filter.php` is the input filter that Doxygen runs on each PHP file of
the code base. It reads the file named on its command line and decides whether the file
is worth documenting. If it is not, the filter prints nothing and logs a notice. If it
is, the filter rewrites the PHPDoc comments into a form Doxygen understands and prints
the result.

The model is the pure function `Filter.Filter(path, source)`. It returns an `Outcome`:
the printed text and the logged notice, if any. It has two parts:

- **The gatekeeper** (`Gatekeeper`). Three checks run in order: a lang path, a text
  that defines `CLI_SCRIPT` as true, and a text with a line that requires `config.php`
  (lines 33-59). The first check that matches ends the run. Nothing is printed, and the
  notice `<path>:0: notice: <reason>` is logged.
- **The pipeline** (`Filter.Rewrite`, and the method `Filter.Run` that updates one
  string as the script does). Fourteen rewrites run in the script's order:

  | Rewrite | Lines | Module |
  |---|---|---|
  | `@file` insertion | 63-68 | `FileTags` |
  | `@name` removal | 72-74 | `FileTags` |
  | `@var`/`@global` splice | 89-92 | `VarSplice` |
  | `@return` to `@retval` | 97-99 | `TagRenames` |
  | namespace annotation | 103-107 | `Namespaces` |
  | backslash deletion | 111-113 | `Namespaces` |
  | comment backslashes to `::` | 120-123 | `Namespaces` |
  | `@addtogroup` wrap | 128-141 | `PackageGroup` |
  | `@package` to `@ingroup` | 146-148 | `TagRenames` |
  | `@access` to visibility tags | 152-154 | `TagRenames` |
  | tracker-code anchors | 158-160 | `Links` |
  | `@link` to `@externalurl` | 164-166 | `TagRenames` |
  | inline `{@link}` | 170-183 | `Links` |
  | trait to interface | 188-190 | `Traits` |

Each regular expression is modelled by a matcher for that fixed pattern. The matcher
reads the text from one position and returns the length of the match and its
replacement. The comment above each matcher explains how PCRE's backtracking plays out
for that pattern: greedy and lazy quantifiers, `.` never crossing a line feed without
`s`, and `^` with and without `m`.

`Scan.ReplaceAll` gives `preg_replace` its meaning: leftmost, non-overlapping matches,
replaced left to right, with the scan going on after each replacement.
`Scan.ReplaceAtLineStarts` is the same with `^` under the `m` flag. `Scan.FirstFire` is
the first match of `preg_match`.

The lemmas about the rewrites come in these kinds:

- **Where it matches.** A `…Fires` lemma says, in both directions, exactly which texts
  the pattern matches at their first character. The condition is a predicate on the text
  that does not mention the matcher.
- **Leftmost match.** The leftmost match is replaced by the text the script builds. The
  text before it is kept, and the rest is rewritten in turn. "Leftmost" is the premise
  `Scan.NoHitBefore`: no match starts anywhere in the kept prefix. The `…Fires` lemma
  turns that premise into a plain statement about the prefix. The `…After` lemmas and
  `NamespaceAnnotated` state it as "the pattern's literal starts nowhere in the prefix".
- **Reference function.** The rewrite equals an independent reference function on
  every text.
- **Unchanged.** A text without the pattern is left alone.
- **Near miss.** A text that almost matches is left alone.

Not every rewrite has every kind:

| Rewrite | Where it matches | Replacement | Unchanged | Near miss |
|---|---|---|---|---|
| `@file` insertion | `FileTagSpec`, for the existence test of line 63 only | `FileTagInserted` | `FileTagKept` | none |
| `@name` removal | `NameFires` | `NameTagRemoved`, `NameTagRemovedAfter` | `NoNameTagUnchanged` | none |
| `@var`/`@global` splice | `VarFires` | `VarSpliced` | `NoVarTagUnchanged` | none |
| `@return` to `@retval` | reference `Retvals` | `RenameReturnsSpec`, on every text | `NoReturnUnchanged` | none |
| namespace annotation | none | `NamespaceAnnotated` | `NoNamespaceUnchanged` | `UnterminatedKept` |
| backslash deletion | reference `DropEscapes` | `StripEscapesSpec`, on every text | `StripEscapesKeepsText` | none |
| comment backslashes | `CommentFires` | `CommentConverted` | `NoBackslashUnconverted` | none |
| `@addtogroup` wrap | none | `PackageValueOn`, `HeaderReplaced`, `PackageTagDeleted`, `GroupWrapped` | `NoFileDocUnwrapped`, `NoFileDocKept` | none |
| `@package` to `@ingroup` | `IngroupFires` | `PackageRenamed`, `PackageRenamedAfter` | `NoPackageUnchanged` | none |
| `@access` | `AccessFires` | `AccessRenamed`, `AccessRenamedAfter` | none | `OtherAccessKept` |
| tracker codes | `TrackerFires` | `TrackerLinked` | `SlashedCodesKept` | `SlashedCodeKept`, `UnboundedCodeKept` |
| `@link` to `@externalurl` | `ExternalUrlFires` | `ExternalUrlRenamed` | `NoStarUnchanged` | none |
| inline `{@link}` | `InlineLinkFires`, `LinkPartsIff` | `LinkExpanded`, `LinkExpandedAfter`, `LabelledLinkExpanded`, `BareLinkExpanded` | `NoBraceKept` | `UnclosedLinkKept` |
| trait to interface | `TraitMatch`, for the one position `^` allows | `TraitRenamed`, `TightTraitRenamed` | `RenameTrait` | none |

Integers play no part in the filter.

## Model

| member | source | states |
|---|---|---|
| Filter.Filter | phpdocs/doxygen-filter.php:33-59 | A skipped file prints nothing; a file gets no notice exactly when none of the three checks matches |
| Filter.Run | phpdocs/doxygen-filter.php:33-190 | The script run step by step (three early exits, then fourteen reassignments of the text) produces exactly the output and notice of `Filter` |
| Filter.NoticeNamesReason | phpdocs/doxygen-filter.php:36-56 | The three notices for one path are pairwise distinct, so a logged notice names its reason |
| Filter.NoticeIs | phpdocs/doxygen-filter.php:33-59 | A file gets the notice for a reason exactly when the gatekeeper gives that reason |
| Filter.SkipNotices | phpdocs/doxygen-filter.php:33-59 | A path with `/lang/<a-z_>*/` gets the lang-file notice whatever its text holds; the CLI notice needs no lang segment and a `define … CLI_SCRIPT … true` line; the front-end notice needs neither, plus a `require … config.php` line |
| Filter.InertPrinted | phpdocs/doxygen-filter.php:63-192 | A file that passes the gatekeeper is printed unchanged when it holds none of the characters `/`, `*`, `@`, `\`, `{`, `M` and `C`, no `namespace` anywhere, and does not start with `trait` |
| Filter.PackageAfterComments | phpdocs/doxygen-filter.php:120-130 | A `/** @file` docblock whose `@package` line starts with ` * ` and holds a one-word value: after the comment rewrite of line 120, the package read at line 128 is that value with every backslash turned into `::` and then trimmed, so `core\update` gives `core::update` |
| Filter.EarlyStagesKeep | phpdocs/doxygen-filter.php:63-113 | Each of the first six rewrites leaves such a text unchanged |
| Filter.LateStagesKeep | phpdocs/doxygen-filter.php:120-190 | Each of the last eight rewrites leaves such a text unchanged |
| Gatekeeper.LangPathSpec | phpdocs/doxygen-filter.php:33-34 | The path check holds exactly when the path has `/lang/`, then only `[a-z_]` characters, then `/` |
| Gatekeeper.CliScriptSpec | phpdocs/doxygen-filter.php:43-44 | The CLI check holds exactly when `define`, `CLI_SCRIPT` and `true` follow each other with no line feed between them |
| Gatekeeper.ConfigSpec | phpdocs/doxygen-filter.php:53-54 | The front-end check holds exactly when a line feed is followed by spaces only (no tabs), `require`, and then `config.php` later on the same line |
| Gatekeeper.CheckSpec | phpdocs/doxygen-filter.php:33-59 | The checks have priority lang, then CLI, then front-end; all four outcomes are characterised in both directions |
| FileTags.FileTagSpec | phpdocs/doxygen-filter.php:63-64 | The existence test holds exactly when some line has `/**` followed later on that line by `@file` |
| FileTags.FileTagInserted | phpdocs/doxygen-filter.php:63-68 | Without such a line, ` @file <path>` is appended at the end of the line that holds the first `/**`, and nothing else changes |
| FileTags.FileTagKept | phpdocs/doxygen-filter.php:63-68 | A text that has the tag already, or has no `/**`, is unchanged |
| FileTags.NameFires | phpdocs/doxygen-filter.php:72 | The pattern matches at a position exactly when `@name` and a whitespace character stand there |
| FileTags.NameTagRemoved | phpdocs/doxygen-filter.php:72-74 | At the leftmost match, `@name`, its whitespace and the rest of its line are deleted; the text before is kept, and the line feed and everything after it are rewritten in turn |
| FileTags.NameTagRemovedAfter | phpdocs/doxygen-filter.php:72-74 | The same for any prefix in which `@name` starts nowhere, however many other tags it holds |
| FileTags.NoNameTagUnchanged | phpdocs/doxygen-filter.php:72-74 | A text with no `@name` followed by whitespace is unchanged |
| VarSplice.VarMatchOn | phpdocs/doxygen-filter.php:89-91 | At a tag `@var`/`@global`, one-word type, description, `*/`, modifiers and declaration, the pattern matches exactly that block and builds `${4}${6}${7}${3} ${10}` |
| VarSplice.VarFires | phpdocs/doxygen-filter.php:89 | The pattern matches at a position exactly when `@var` or `@global`, whitespace, a one-word type, whitespace and later a `*/` followed by whitespace stand there |
| VarSplice.VarSpliced | phpdocs/doxygen-filter.php:89-92 | At the leftmost match, such a block loses its tag, its closer and keywords stay, and the type moves in front of the variable; the text before it is kept and the rest is rewritten in turn |
| VarSplice.TemplateOn | phpdocs/doxygen-filter.php:91 | The replacement template applied to the block's capture groups is the rewritten block |
| VarSplice.NoVarTagUnchanged | phpdocs/doxygen-filter.php:89-92 | A text with no `@var` and no `@global` is unchanged |
| TagRenames.Retvals | phpdocs/doxygen-filter.php:97-98 | The reference rename, character by character, keeps the length of the text |
| TagRenames.RenameReturnsSpec | phpdocs/doxygen-filter.php:97-99 | The regex rewrite equals the reference rename: every `@return` followed by whitespace becomes `@retval`, and the whitespace and every other character stay where they are |
| TagRenames.RenameReturnsLength | phpdocs/doxygen-filter.php:97-99 | The rename never changes the length of the text |
| TagRenames.NoReturnUnchanged | phpdocs/doxygen-filter.php:97-99 | A text with no `@return` followed by whitespace is unchanged |
| TagRenames.IngroupFires | phpdocs/doxygen-filter.php:146 | The pattern matches at a position exactly when `@package` and a whitespace character stand there |
| TagRenames.PackageRenamed | phpdocs/doxygen-filter.php:146-148 | At the leftmost match, `@package`, its whitespace and the rest of its line become `@ingroup <rest of line>` |
| TagRenames.PackageRenamedAfter | phpdocs/doxygen-filter.php:146-148 | The same for any prefix in which `@package` starts nowhere |
| TagRenames.NoPackageUnchanged | phpdocs/doxygen-filter.php:146-148 | A text with no `@package` followed by whitespace is unchanged |
| TagRenames.AccessFires | phpdocs/doxygen-filter.php:152 | The pattern matches at a position exactly when `@access`, whitespace and one of `private`, `protected`, `public` stand there |
| TagRenames.AccessRenamed | phpdocs/doxygen-filter.php:152-154 | At the leftmost match, `@access` with whitespace and `private`, `protected` or `public` becomes `@private`, `@protected` or `@public` |
| TagRenames.AccessRenamedAfter | phpdocs/doxygen-filter.php:152-154 | The same for any prefix in which `@access` starts nowhere, such as a docblock with `@param` lines before the tag |
| TagRenames.OtherAccessKept | phpdocs/doxygen-filter.php:152-154 | `@access` followed by any other value does not match and stays |
| TagRenames.ExternalUrlFires | phpdocs/doxygen-filter.php:164 | The pattern matches at a position exactly when a `*`, whitespace, `@link`, whitespace and a non-space character stand there |
| TagRenames.ExternalUrlRenamed | phpdocs/doxygen-filter.php:164-166 | At the leftmost match, after a `*` and whitespace, `@link` with a whitespace-separated target becomes `@externalurl` with the same whitespace and target |
| TagRenames.NoStarUnchanged | phpdocs/doxygen-filter.php:164-166 | A text with no `*` is unchanged |
| Namespaces.Annotation | phpdocs/doxygen-filter.php:104-106 | The comment added after a namespace statement contains no backslash |
| Namespaces.NamespaceAnnotated | phpdocs/doxygen-filter.php:103-107 | `namespace X;` is kept verbatim and followed by ` /** @namespace X' &nbsp;*/`, where X' is X with every backslash replaced by `::` |
| Namespaces.UnterminatedKept | phpdocs/doxygen-filter.php:103 | A `namespace` whose line has no `;` does not match |
| Namespaces.NoNamespaceUnchanged | phpdocs/doxygen-filter.php:103-107 | A text with no `namespace` followed by whitespace is unchanged |
| Namespaces.StripEscapesSpec | phpdocs/doxygen-filter.php:111-113 | The regex rewrite equals the reference deletion: a backslash goes exactly when the character before it is whitespace or `\|` |
| Namespaces.StripsAsDropped | phpdocs/doxygen-filter.php:111-113 | The rewrite agrees with the reference deletion from any position whose previous character is known |
| Namespaces.DropsOnlyBackslashes | phpdocs/doxygen-filter.php:111-113 | The reference deletion removes only backslashes: with backslashes taken out, the text before and after is the same |
| Namespaces.StripEscapesKeepsText | phpdocs/doxygen-filter.php:111-113 | The rewrite removes nothing but backslashes, and a text without backslashes is unchanged |
| Namespaces.CommentFires | phpdocs/doxygen-filter.php:120 | The pattern matches at a position exactly when `//` or `*` stands there and a backslash follows later on the same line |
| Namespaces.CommentConverted | phpdocs/doxygen-filter.php:120-123 | At the leftmost match, on a comment line (after `//` or `*`), the first backslash-word keeps its lead and has every backslash replaced by `::` |
| Namespaces.QuietBeforeLine | phpdocs/doxygen-filter.php:120 | No match starts before a line feed that is followed by neither `/` nor `*`, in a text without backslashes up to there |
| Namespaces.ConvertKeepsPrefix | phpdocs/doxygen-filter.php:120-123 | The rewrite keeps any prefix without backslashes as it is |
| Namespaces.NoBackslashUnconverted | phpdocs/doxygen-filter.php:120-123 | A text without backslashes is unchanged |
| Text.ScopeSeparators | phpdocs/doxygen-filter.php:105 | `str_replace('\\', '::', …)` leaves no backslash, never shortens, and keeps text without backslashes |
| Text.ScopeSeparatorsAppend | phpdocs/doxygen-filter.php:105 | The replacement distributes over concatenation |
| Text.Trim | phpdocs/doxygen-filter.php:130 | `trim` returns a slice of its argument with only trimmable characters outside it and none at either of its ends; it keeps a trimmed text and empties an all-blank one |
| Text.TrimUnique | phpdocs/doxygen-filter.php:130 | Any slice with only trimmable characters outside it and none at its ends is the result of `trim`, so the result is determined |
| PackageGroup.PackageValueOn | phpdocs/doxygen-filter.php:128-130 | The package of the first `/** @file` docblock with an `@package` tag is the tag's value, trimmed |
| PackageGroup.PackageBlockOn | phpdocs/doxygen-filter.php:128 | On such a docblock the pattern's groups sit at the tag, the value and the first `*/` |
| PackageGroup.HeaderReplaced | phpdocs/doxygen-filter.php:133-135 | The three lines after the `?php` line are replaced by the `@addtogroup P P` opening; the `?php` line and the rest of the text stay |
| PackageGroup.PackageTagDeleted | phpdocs/doxygen-filter.php:139 | In the `/** @file` docblock the `@package` tag and its value are deleted, and the rest of the docblock stays |
| PackageGroup.NoFileDocUnwrapped | phpdocs/doxygen-filter.php:128-129 | Without a `/** @file` docblock there is no package and the text is not wrapped |
| PackageGroup.NoFileDocKept | phpdocs/doxygen-filter.php:139 | The tag deletion leaves a text without `/** @file` unchanged |
| PackageGroup.GroupWrapped | phpdocs/doxygen-filter.php:128-141 | With a non-empty trimmed package P, the output has the `@addtogroup P P` opening after the `?php` line, the docblock without its `@package` tag, and ends with `/** @} */` |
| PackageGroup.LastFind | phpdocs/doxygen-filter.php:128 | The backtracking search finds the last occurrence of a literal in a range, if there is one |
| Links.TrackerFires | phpdocs/doxygen-filter.php:158 | The pattern matches at a position exactly when a character other than `/` stands there, followed by one of the five project names, `-`, digits and a word boundary |
| Links.TrackerLinked | phpdocs/doxygen-filter.php:158-160 | At the leftmost match, a code of one of the five projects, `-` and digits not followed by a word character is wrapped as `<a class="el" href="https://tracker.moodle.org/browse/CODE">CODE</a>`, and the character before it is kept |
| Links.SlashedCodeKept | phpdocs/doxygen-filter.php:158 | A code right after `/` does not match |
| Links.SlashedCodesKept | phpdocs/doxygen-filter.php:158-160 | A text whose every `M` or `C` follows a `/` is unchanged |
| Links.UnboundedCodeKept | phpdocs/doxygen-filter.php:158 | A code whose digits run into a letter or `_` has no word boundary and does not match |
| Links.UrlIff | phpdocs/doxygen-filter.php:172 | The target counts as a URL exactly when it has a letter followed by `://`, or has `mailto:` |
| Links.LinkPartsIff | phpdocs/doxygen-filter.php:170 | The text between `{@link` and `}` splits into the pattern's groups exactly when it is at least one whitespace character, a non-empty run without space, line feed and `}` (the target), whitespace, a possibly empty such run (the label) and whitespace |
| Links.InlineLinkFires | phpdocs/doxygen-filter.php:170 | The pattern matches at a position exactly when `{@link`, a text of that shape and `}` stand there |
| Links.LinkExpanded | phpdocs/doxygen-filter.php:170-183 | At the leftmost match, a `{@link …}` whose groups the pattern finds is replaced by the callback's text on those groups |
| Links.LinkExpandedAfter | phpdocs/doxygen-filter.php:170-183 | The same for any prefix in which `{@link` starts nowhere, such as a class body after its `{` |
| Links.UrlLinkText | phpdocs/doxygen-filter.php:172-176 | A URL target gives `<a class="el externalurl" href="T">L</a>` followed by group 3 |
| Links.PageLinkText | phpdocs/doxygen-filter.php:177-181 | Any other target gives `@link T` + L + ` @endlink` followed by group 3, with no space between T and L |
| Links.TrimCaption | phpdocs/doxygen-filter.php:180 | `trim(' ' . L)` of a one-word label is the label itself |
| Links.LabelledLinkExpanded | phpdocs/doxygen-filter.php:170-183 | At the leftmost match, `{@link T L}` is rewritten with T as target, L as label and the whitespace before `}` as group 3 |
| Links.BareLinkExpanded | phpdocs/doxygen-filter.php:170-183 | At the leftmost match, `{@link T}` is rewritten with an empty label and nothing after, never with T as a fallback label |
| Links.NoBraceKept | phpdocs/doxygen-filter.php:170-183 | A text with no `{` is unchanged |
| Links.UnclosedLinkKept | phpdocs/doxygen-filter.php:170 | A `{@link` with no `}` after it does not match |
| Traits.TraitMatch | phpdocs/doxygen-filter.php:188 | A match starts with `trait`, ends at a `{`, and is replaced by text starting `interface trait_` |
| Traits.RenameTrait | phpdocs/doxygen-filter.php:188-190 | A text that does not start with `trait` is unchanged; a changed text starts with `interface trait_` |
| Traits.TraitRenamed | phpdocs/doxygen-filter.php:188-190 | `trait Name {` at the start of the text becomes `interface trait_Name {`, keeping the whitespace before the brace and everything after it |
| Traits.TightTraitRenamed | phpdocs/doxygen-filter.php:188-190 | `trait Name{` with no brace after the following whitespace becomes `interface trait_Name{` |
| Scan.HitAfter | phpdocs/doxygen-filter.php:74 | When the leftmost match starts after a prefix `u`, `preg_replace` keeps `u`, emits the replacement and goes on after the match |
| Scan.FirstHit | phpdocs/doxygen-filter.php:74 | The same, with the match given by position |
| Scan.KeepsQuietPrefix | phpdocs/doxygen-filter.php:74 | A prefix where no match starts is copied unchanged |
| Scan.QuietBeforeLiteral | phpdocs/doxygen-filter.php:74 | When every match begins with a literal, no match starts in a prefix where the literal starts nowhere |
| Scan.NoHitUnchanged | phpdocs/doxygen-filter.php:74 | A text where no match starts is unchanged |
| Scan.FirstFire | phpdocs/doxygen-filter.php:129 | `preg_match` finds the leftmost position where the pattern matches, or reports that there is none |
| Scan.HitAtLineStart | phpdocs/doxygen-filter.php:135 | Under `^` with `m`, a match at a line start is replaced and the scan goes on at the next line start |
| Scan.NoLineHitUnchanged | phpdocs/doxygen-filter.php:135 | Under `^` with `m`, a text with no match at any line start is unchanged |
| Text.LastFitNone | phpdocs/doxygen-filter.php:128 | A backtracking quantifier that finds no fitting length means no fitting length exists |

## Left out

- Input and output. The file read (line 3), the command-line argument, `error_log`,
  `echo` and `die` (lines 36-38, 46-48, 56-58, 192) are not modelled as effects. The
  path and the text are parameters. The notice and the printed text are the two fields
  of `Filter.Outcome`, and `die` is the early return of `Filter.Run`.
- Lines 5-28 are a comment on future work and have no behaviour.
- A general PCRE engine is not modelled. Each pattern has its own
  matcher, and the backtracking is worked out for that pattern in the comment above it.
- PCRE failures are not modelled. When PCRE gives up, for example at
  `pcre.backtrack_limit`, `preg_match` returns `false` and `preg_replace` and
  `preg_replace_callback` return `null`. The script checks neither result. In the
  gatekeeper (lines 34, 44, 54) `false !== 0` holds, so a failed check would skip the file
  with that check's notice. A failed test on line 64 or line 129 would skip the `@file`
  insertion or the group wrap. A failed URL test on line 172 would make a URL link a page
  link. A `null` from any rewrite (lines 67-190) would empty the text for every later
  step. In the model every matcher always gives an answer, so each check
  and each rewrite always completes.
- Character set. PCRE without `u` works on bytes, while the model works on Dafny
  characters. `\s`, `\d`, `\w`, `\b`, `[a-z_]` and `trim` use their ASCII meanings.
- FileTags.AddFileTag: the path is inserted into the replacement string literally. The
  script builds that string by concatenation (line 66), so `$1`, `${1}` or `\1` inside a
  path would be read as references by `preg_replace`.
- PackageGroup.AddGroupHeader: the package name is inserted literally into the
  replacement string of line 134, with the same gap as the path of line 66.
- PackageGroup.GroupWrapped: proved for a text with one `?php` line, whose three following
  lines are replaced, and no other `/** @file` docblock. Other layouts are not summed up
  in one lemma. The per-step lemmas `HeaderReplaced`, `PackageValueOn` and
  `PackageTagDeleted` cover them piece by piece.
- VarSplice.VarSpliced: the description `d.desc` may not hold a closer, that is `*/`
  followed by whitespace. The lazy group stops at the first closer, so a block whose
  description holds one is a different split of the same text, and `VarFires` covers
  it. A `*/` not followed by whitespace may appear in the description. A declaration repeated by `(\$[^;]+;)*`
  contributes only its last repetition as group 10, as in PCRE.
- `Links.LinkText` as written. Groups 2 and 3 of line 170 always take part in a match,
  so `isset($matches[2])` is always true. A link without a label therefore shows an
  empty text, not its target, and a page link joins the label directly onto the target
  with no space (lines 175, 180). The model follows the code. The code's own
  `isset($matches[2]) ? $matches[2] : $matches[1]` on line 175 shows that a fallback
  to the target was meant. That branch can never be taken.
- `Traits.RenameTrait` as written. The pattern of line 188 has no `m` flag, so `^`
  anchors at the start of the text only. A file that starts with `<?php` is never
  renamed. The model follows the code. The comment above line 188 says that all traits
  are converted to interfaces.
- `Gatekeeper.IncludesConfig` as written. The pattern of line 53 needs a line feed
  before the `require` line and allows only spaces before `require`. A `require` on the
  first line of the file, or one indented with a tab, is not caught. The model follows
  the code. The comment on line 51 promises to catch every file that includes
  `config.php`, but the ` *` of line 53 matches spaces only.
