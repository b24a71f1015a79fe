# regex-recursion: the recursion expander, modelled in Dafny

`recursion(expression)` is a plugin for the `regex` template tag. It takes
the source text of a regular expression and emulates bounded recursion by
textual unrolling. A pattern may hold one directive:

- `(?R=N)` recurses the whole pattern.
- `\g<name&R=N>` recurses the contents of the named group that encloses it.

Either form is replaced by `N - 1` nested copies of the text before and
after the directive. Named group openers in each copy, and the
backreferences to them, get the suffix `_$k`, where `k` is the copy's
depth. For `(?R=N)` every backreference in a copy is renamed. For
`\g<name&R=N>` a backreference keeps its name when no group in the
recursed contents declares it. The function returns the
rewritten pattern or throws.

The model is written over `string` (`seq<char>`). A thrown error becomes
`Failure(Error)` of a `Result`.

- `Lexical` holds the token shapes of the directive and group syntax (the
  regexes at lines 3-6). Each shape is a recogniser with a round-trip lemma.
- `Decimal` holds canonical decimal literals.
- `Unescaped` models the `regex-utilities` helpers the expander calls with
  the default context: `hasUnescaped`, `getGroupContents`,
  `forEachUnescaped` and `replaceUnescaped`. They share one escape-aware,
  class-aware walk (`LexOn`).
- `Unroll` models `makeRecursive` and `repeatWithDepth`.
- `Expansion` models `recursion`: the three pre-checks, the scan for the
  first directive outside character classes, `assertMaxInBounds`,
  `assertNoFollowingRecursion`, the reference checks and the splice.
- `Shapes` derives what `recursion` returns for whole families of patterns
  with plain surroundings.
- `Atoms` spells patterns from atoms: characters other than `(`, `[`,
  `]` and `\`; escapes other than `\g`, `\k` and `\1`-`\9`; named group
  openers; named backreferences; and the two directives. Every walk reads
  an atom the same way wherever it stands. So the needles a pattern holds,
  the names it declares, where the scan stops, where a group ends and what
  the renaming writes can all be read off its atoms. This gives
  `recursion`'s result for patterns with named groups and backreferences
  on either side of the directive, as long as they hold no unnamed,
  non-capturing or lookaround group and no character class.
- `Examples` states the test suite's cases about the model.

Where the test suite and the code disagree, the model follows the code:

- The tests expect success for two directives in separate groups
  (`spec/recursion-spec.js:74-78`). The code rejects the second one at
  `src/index.js:71`, and so does the model (`Expansion.SubpatternExpansion`,
  second clause).
- The tests expect success for numbered backreferences outside the recursed
  group (`spec/recursion-spec.js:31-34`). The code rejects every numbered
  backreference once a directive is present (`src/index.js:16`), and so does
  `Expansion.Recursion`.
- The tests expect `^(?<r>a\g<1&R=2>?b)$` to succeed, and with implicit
  flag n disabled also `^(a\g<1&R=2>?b)$`
  (`spec/recursion-spec.js:113-118`). The code's directive regex (`src/index.js:3`)
  accepts `1` as a group name, so `\g<1&R=2>` refers to a group named `1`.
  No named group of that name is opened before it, so the code rejects both
  patterns as outside the referenced group (`src/index.js:60-62`). The model
  does the same (`Atoms.UnopenedSpelled`,
  `Examples.AnchoredNumberedExample`, and `Expansion.ReferenceByOpeners` for
  the unnamed-group form). The tests' other numbered cases
  (`spec/recursion-spec.js:116` and `121-124`) expect a throw, and the code
  throws.

Several tests expect a throw because the `regex` tag rejects the pattern
that `recursion` hands back unchanged (escaped or in-class directives). In
the model these cases return the input unchanged.

## Model

| member | source | states |
|---|---|---|
| Lexical.TextIsRecognised | src/index.js:3-6 | A well-formed directive, group opener, backreference or `(?(DEFINE)` followed by any text is read back by its recogniser as exactly that token. |
| Lexical.CaptureOpenAtSound | src/index.js:5 | Whatever the group-opener recogniser accepts is spelled out at the start of the text. Its name is non-empty, has no `>`, and does not start with `=` or `!`. |
| Lexical.GlobalRecursionAtSound | src/index.js:4 | An accepted `(?R=N)` is spelled out at the start of the text, with a non-empty depth free of `)`. |
| Lexical.SubRecursionAtSound | src/index.js:3 | An accepted `\g<name&R=N>` is spelled out at the start of the text. Its name is non-empty without `>` or `&`, and its depth is non-empty without `>`. |
| Decimal.ShowValue | src/index.js:89-92 | A literal matching `^[1-9]\d*$` is exactly the decimal rendering of the number `+max` reads from it. |
| Unescaped.LexOnFlatten | src/index.js:142-153 | The unescaped walk splits a text into tokens that, written out in order, give back the whole text, so replacement copies unmatched text verbatim. |
| Unescaped.PlainHasNone | src/index.js:13-15 | Text with no `(`, `[`, `]` or backslash holds no unescaped match of any needle. |
| Unescaped.PlainRunPrefix | src/index.js:13 | Such plain text placed in front of a pattern does not change whether the pattern holds an unescaped match. |
| Unescaped.GroupContentsBalanced | src/index.js:63-64 | The contents of a group are the text the walk reads before the `)` that balances the group's `(`. No prefix of the contents holds more unescaped `)` than `(` outside classes. When the contents end before the end of the pattern, the next lexeme is a `)` with as many `(` as `)` before it in the contents. |
| Unescaped.GroupEndRun | src/index.js:64 | Text free of parentheses, brackets and escapes neither opens nor closes a group for `getGroupContents`. |
| Unescaped.CaptureNamesEmpty | src/index.js:112-118 | The set of names collected by `forEachUnescaped` is empty exactly when the text holds no unescaped group opener. |
| Unescaped.RetagUntouched | src/index.js:142-153 | A copy of text without an unescaped group opener or backreference is the text itself. |
| Unescaped.RetagAppend | src/index.js:142-153 | Renaming `a + b` is renaming `a`, then renaming `b`, whenever the renaming scan reads `a` and `b` separately (no match spans the boundary). |
| Unescaped.RetagAfterNonCapturingOpen | src/index.js:123 | Copying `(?:` + `pre` gives `(?:` followed by the copy of `pre`. |
| Unescaped.RetagBeforeClose | src/index.js:125 | Copying `post` + `)` gives the copy of `post` followed by `)`. |
| Unroll.DepthNum | src/index.js:137-138 | Every depth number lies between 2 and `reps + 1`. |
| Unroll.ForwardTags | src/index.js:136-141 | The forward copies are tagged 2, 3, ..., `maxDepth` in order. |
| Unroll.TagsMirror | src/index.js:138 | The backward tags are the forward tags reversed. |
| Unroll.Scope | src/index.js:112-118 | Backreference renaming is restricted to a set of names exactly in subpattern mode. That set is the names of the groups declared in `pre + post`. |
| Unroll.MakeRecursive | src/index.js:122-126 | The output begins with `pre` and ends with `post`. At least the `(?:`, `(?:)` and `)` of one level lie between them. |
| Unroll.MakeRecursiveNests | src/index.js:119-126 | The output is `pre`, then levels `(?:` copy-of-`pre` ... copy-of-`post` `)` nested around `(?:)`, then `post`. The two copies at one level carry the same tag `_$(level + 2)`. |
| Unroll.MakeRecursiveShape | src/index.js:119-126 | With no group opener or backreference in `pre` and `post`, the output is `pre`, `N - 1` times `(?:pre`, `(?:)`, `N - 1` times `post)`, then `post`. |
| Expansion.ParseDepth | src/index.js:87-96 | An accepted depth lies in 2..100 and the literal is its canonical decimal rendering. A rejected one yields the error that names the literal. |
| Expansion.ParseDepthAccepts | src/index.js:87-96 | A literal is accepted exactly when it is the decimal rendering of some number from 2 to 100. |
| Expansion.ParseDepthShow | src/index.js:89-95 | The rendering of any depth from 2 to 100 is accepted with that value. |
| Expansion.Drop | src/index.js:50-51 | `slice(n)` is the rest of the string after `n` characters, or empty past the end. |
| Expansion.ScanStep | src/index.js:38-79 | One step of the token loop always advances. It stops only outside classes, at a well-formed directive lying inside the pattern. It records no group start beyond the position it moves to. |
| Expansion.ScanCharacterised | src/index.js:34-80 | The loop finds nothing exactly when no lexeme outside classes is a directive. Otherwise it stops at the first such lexeme, at its offset. By then it has recorded a start for exactly the names some earlier opener outside classes declares. Each start is the end of the last opener of that name (`map.set` overwrites). |
| Expansion.ScanFromLexemes | src/index.js:38-79 | The same, from any position, class depth and earlier starts: a name no lexeme before the hit opens keeps its earlier start. |
| Expansion.ScanFromMatches | src/index.js:38-55 | The directive the loop stops at is spelled out in the pattern at the reported position. |
| Expansion.ScanPlainRun | src/index.js:38-42 | The loop passes through plain text without stopping or recording anything. |
| Expansion.Recursion | src/index.js:12-33 | A pattern without an unescaped directive is returned unchanged. Otherwise a numbered backreference is an error, then a DEFINE group is an error. |
| Expansion.Expand | src/index.js:47-75 | Handling a directive never raises the "not processed" error. |
| Expansion.Splice | src/index.js:72-74 | The result keeps the text before `start` and the text after the replaced `len` characters, and holds `middle` in between. |
| Expansion.RecursionNotProcessed | src/index.js:81 | "Recursion was not processed" is raised exactly when the pre-checks pass but no lexeme of the token loop outside classes is a directive. |
| Expansion.GlobalSplit | src/index.js:50-51 | At a `(?R=N)` the pattern is exactly `pre`, the directive, and `post`. |
| Expansion.GlobalExpansion | src/index.js:47-53 | For `(?R=N)`: an invalid depth is an error, then a later directive is an error. Otherwise the result is `pre`, the nested renamed copies with every backreference renamed, and `post`. |
| Expansion.GlobalShape | src/index.js:47-53 | With nothing to rename, `pre (?R=N) post` becomes `pre`, `N - 1` times `(?:pre`, `(?:)`, `N - 1` times `post)`, `post`. |
| Expansion.SubpatternExpansion | src/index.js:55-74 | A legal directive lies past the end of its group's opener. A later directive is an error. Otherwise only the group's contents change: they become `pre`, the nested copies and `post`, renaming backreferences only to groups declared in `pre + post`. |
| Expansion.SubShape | src/index.js:69-74 | With nothing to rename, the group's contents become `pre`, `N - 1` times `(?:pre`, `(?:)`, `N - 1` times `post)`, `post`. |
| Expansion.SubpatternContents | src/index.js:63-74 | When the group spans the directive, its contents are `pre`, the directive and `post`. Putting the contents back in place gives the original pattern, so the splice touches nothing outside the group. |
| Expansion.ReferenceByOpeners | src/index.js:58-68 | With a valid depth, `\g<name&R=N>` at the first directive is rejected as outside its group exactly when no opener of `name` comes before it, or the contents of the group its last opener starts hold no `\g<..&R=..>`. |
| Shapes.GlobalPlainHit | src/index.js:13-53 | `pre (?R=N) post` with plain parts passes the pre-checks, and the loop stops at its directive. |
| Shapes.GlobalPlainUnrolls | src/index.js:47-53 | `pre (?R=N) post` with plain parts and a valid depth becomes `pre (?:pre ... (?:) ... post) post` with `N - 1` levels. |
| Shapes.GlobalPlainRejects | src/index.js:48 | The same pattern with an invalid depth is rejected with that depth. |
| Shapes.GlobalTwiceRejects | src/index.js:52 | `pre (?R=N) mid (?R=M) post` with a valid `N` is rejected as recursion used twice, whatever `M` is. |
| Shapes.EscapedGlobalUntouched | src/index.js:13-15 | `pre \(?R=N) post` holds no directive and is returned unchanged. |
| Shapes.ClassGlobalUntouched | src/index.js:13-15 | `pre [(?R=N)] post` holds no directive outside a class and is returned unchanged. |
| Shapes.SubPlainHit | src/index.js:13-45 | `lead (?<name> pre \g<name&R=N> post ) trail` with plain parts passes the pre-checks. The loop records the group's start and stops at the directive. |
| Shapes.SubPlainUnrolls | src/index.js:55-74 | That pattern with a valid depth becomes `lead (?<name> pre (?:pre ... (?:) ... post) post ) trail`. |
| Shapes.SubPlainRejects | src/index.js:56 | That pattern with an invalid depth is rejected with that depth. |
| Shapes.ClosedSubRejects | src/index.js:63-68 | `lead (?<name> inner ) mid \g<name&R=N> post` is rejected as outside the referenced group. |
| Atoms.SpelledHas | src/index.js:13-33 | `hasUnescaped` on a pattern spelled from atoms holds exactly when one of its atoms is of a kind the needle matches. |
| Atoms.CaptureNamesSpelled | src/index.js:112-118 | The names collected from a spelled pattern are exactly the names of its group-opener atoms. |
| Atoms.RetagSpelled | src/index.js:142-153 | Renaming a spelled pattern followed by any text renames each group opener and each backreference in scope among its atoms, keeps every other atom, and goes on renaming the text after it. |
| Atoms.ScanSpelled | src/index.js:38-45 | The loop passes atoms holding no directive without stopping. A start recorded before them survives unless one of them opens a group of the same name, and a name none of them opens gains no start. |
| Atoms.UnopenedSpelled | src/index.js:55-62 | For `pre \g<name&R=N> post` spelled from atoms, where `pre` holds no directive and opens no group `name`: an invalid depth is rejected, and every valid depth is rejected as outside the referenced group. A numeric name such as `1` is treated like any other name. |
| Atoms.GroupEndSpelled | src/index.js:64 | The group-contents walk passes atoms that never close the last open group, and leaves open as many groups as the atoms do. |
| Atoms.GlobalSpelled | src/index.js:13-53 | For `pre (?R=N) post` spelled from atoms, with no directive in `pre`: an invalid depth is rejected, then a directive in `post` is rejected. Otherwise the result is `pre`, the `N - 1` nested copies with every group and backreference renamed after its depth, and `post`. |
| Atoms.SubSpelled | src/index.js:13-74 | For `lead (?<name> pre \g<name&R=N> post ) trail` spelled from atoms, where `pre` and `post` stay inside the group until its `)`: an invalid depth is rejected, then a later directive is rejected. Otherwise only the group's contents change, into `pre`, the nested copies and `post`; the copies rename the groups of `pre + post` and the backreferences to them, and keep every other backreference. |
| Examples.DepthsAccepted | spec/recursion-spec.js:7-13 | The depths 2 and 100 are accepted. |
| Examples.DepthsAcceptedInPatterns | spec/recursion-spec.js:7-13 | `a(?R=N)?b` and `(?<r>a\g<r&R=N>?b)` with `N` = 2 and 100 succeed, unrolled into 1 and 99 levels. |
| Examples.GlobalGoodDepth | spec/recursion-spec.js:7-13 | `a(?R=N)?b` unrolls into `N - 1` levels for every accepted depth literal free of group and class syntax. |
| Examples.SubGoodDepth | spec/recursion-spec.js:7-13 | `(?<r>a\g<r&R=N>?b)` unrolls into `N - 1` levels inside the group for every such accepted literal without `>`. |
| Examples.DepthsRejected | spec/recursion-spec.js:15-21 | `-2`, `0`, `1`, `02`, `+2`, `2.5`, `101`, `a` and `null` are rejected. |
| Examples.GlobalBadDepth | spec/recursion-spec.js:15-18 | `a(?R=N)?b` is rejected for every rejected depth literal free of group and class syntax. |
| Examples.SubBadDepth | spec/recursion-spec.js:15-21 | `(?<r>a\g<r&R=N>?b)` is rejected for every such rejected depth literal without `>`. |
| Examples.GlobalExample | spec/recursion-spec.js:52-55 | `a(?R=2)?b` becomes `a(?:a(?:)?b)?b`. |
| Examples.NamedGlobalExample | spec/recursion-spec.js:62-65 | `(?<w>\w)0(?R=2)?1\k<w>` becomes `(?<w>\w)0(?:(?<w_$2>\w)0(?:)?1\k<w_$2>)?1\k<w>`: the copy's group and its backreference are renamed together, the originals are kept. |
| Examples.TwiceExample | spec/recursion-spec.js:57-58 | `a(?R=2)?b(?R=2)?` is rejected as recursion used twice. |
| Examples.EscapedExample | spec/recursion-spec.js:41-42 | `a\(?R=2)?b` is returned unchanged. |
| Examples.ClassExample | spec/recursion-spec.js:47-48 | `a[(?R=2)]b` is returned unchanged. |
| Examples.SubExample | spec/recursion-spec.js:68-72 | `(?<r>a\g<r&R=2>?b)` between any plain texts becomes `(?<r>a(?:a(?:)?b)?b)`, with the surroundings kept. |
| Examples.AnchoredSubExample | spec/recursion-spec.js:69-71 | `^(?<r>a\g<r&R=2>?b)$` becomes `^(?<r>a(?:a(?:)?b)?b)$`. |
| Examples.SubRefsExample | spec/recursion-spec.js:100-102 | `^(?<a>a)\k<a>(?<r>(?<b>b)\k<a>\k<b>\k<c>\g<r&R=2>?)(?<c>c)\k<c>$` becomes `^(?<a>a)\k<a>(?<r>(?<b>b)\k<a>\k<b>\k<c>(?:(?<b_$2>b)\k<a>\k<b_$2>\k<c>(?:)?)?)(?<c>c)\k<c>$`: in the copy only `b`, declared inside `r`, is renamed; `\k<a>` and `\k<c>` keep their targets. |
| Examples.NonAncestorExample | spec/recursion-spec.js:104-105 | `(?<a>)\g<a&R=2>?` is rejected as outside the referenced group. |
| Examples.AnchoredNumberedExample | spec/recursion-spec.js:113-114 | `^(?<r>a\g<1&R=2>?b)$` is rejected as outside the referenced group `1`, because no group of that name is opened; the test expects a match. |
| Examples.NonAncestorNumberedExample | spec/recursion-spec.js:121-124 | `(?<a>)\g<1&R=2>?`, `\g<1&R=2>?(?<a>)`, `(?<a>)(?<b>\g<1&R=2>?)` and `(?<b>\g<2&R=2>?)(?<a>)` are each rejected as outside the referenced group. |

## Left out

- Capture bookkeeping (`hiddenCaptures`, `captureTransfers`) and the `subclass` option (`spec/recursion-spec.js:129` onward) belong to later versions of the plugin and are not in `src/index.js`.
- Numbered subpattern recursion: `\g<1&R=N>` is not resolved to the first capturing group. The code, and the model, read `1` as a group name, so the directive is rejected unless a group named `1` was opened before it (see the disagreement above).
- Match-time behaviour (which strings the rewritten regex matches, as in most `toMatch` tests) depends on the JavaScript regex engine and is not modelled; the model states the rewritten pattern instead.
- The `regex` tag, its flags and the module loading tested by `spec/cjs-support-spec.cjs` and `spec/esm-support-spec.js` are outside the function.
- The `regex-utilities` library is not part of this model's sources. `Unescaped` rebuilds its behaviour for the default context from its documented contract. The needle is tried at each position before a one-token `\\?.` skip. `[` and `]` track nested classes. `replaceUnescaped`'s `[^` skip is walked as `[` then `^`.
- `getGroupContents` is modelled for the default context only; the model's walk counts `(` and `)` outside classes and escapes, with no other context rules.
- Examples.EscapedExample and Examples.ClassExample: the tests expect a throw, which comes from the `regex` tag parsing the unchanged pattern; the model states only that `recursion` returns it unchanged.
- Examples.SubBadDepth and Examples.GlobalBadDepth: cover every rejected literal free of `(`, `)`, `[`, `]` and backslashes (which includes all the tested ones), not literals with group or class syntax.
- Atoms.GlobalSpelled and Atoms.SubSpelled: state results only for patterns spelled from atoms. No character atom is `(`, `[`, `]` or a backslash, and no escape is `\g`, `\k` or `\1`-`\9`, so these patterns hold no unnamed, non-capturing or lookaround group and no character class anywhere. Names and depths are free of group and class syntax and of backslashes. For the subpattern form, the group holds no second opener of its own name before the directive. Every other pattern is covered by the `Expansion` lemmas (`GlobalExpansion`, `SubpatternExpansion`, `ReferenceByOpeners`), which are stated for every input.
- Examples.SubRefsExample: the pattern and its result are written as concatenations of a few shorter literals; the strings are the ones the test uses.
- Shapes (all members): state results only for patterns whose surroundings are plain text; general patterns are covered by the `Expansion` lemmas, which are stated for every input.
- Pattern strings are sequences of code points; UTF-16 surrogate handling of the `u` flag is not modelled.
