# Sass glob imports, modelled in Dafny

This project models the rewriter at the heart of the Vite plugin
`vite-plugin-sass-glob-import`. The rewriter takes a Sass/SCSS source text. It
repeatedly finds the first `@import` or `@use` line whose quoted path holds a
`*` wildcard and searches the importer's directory for matching files. It keeps
the non-directory `.sass`/`.scss` entries that no ignore pattern covers, turns
each one into a statement of its own, and splices the resulting block over the
recognised line. The loop runs once per line of the original text.

The model has five modules:

- `Text` holds the JavaScript string operations the rewriter relies on:
  `indexOf`, `replace` with a string pattern (first occurrence only), `split`,
  `join`, case-insensitive tests and number printing.
- `Paths` is a simplified `node:path`: `basename`, `dirname`, `join`,
  `relative`, `extname` and `parse(...).name`.
- `ImportRule` recognises glob statements. It applies the plugin's multi-line
  regular expression one line at a time, with its captures: start comment,
  keyword, pattern and end comment.
- `Expansion` covers the expansion of one statement. It models the search over
  the search bases with the warnings given on the way, the filter, the
  statements with their `;` terminator and `as <name>_<index>` alias, and the
  block with the comments put back on lines of their own.
- `Rewriter` holds one round of the loop and the loop itself (`Transform`, an
  imperative method that reassigns the text round by round). It also holds the
  plugin hook that splits the module id into file name and directory.

The file system and the libraries are parameters, gathered in `Oracles`:
- the sorted glob results, keyed by the joined pattern;
- the set of directories;
- the set of existing paths;
- the ignore-pattern matcher.

Warnings are counted in a ghost out-parameter instead of being printed.

Two consequences of the regular expression are kept as written. First, a start
or end comment made of blanks only is a non-empty string. It is truthy, so it
becomes a line of the block of its own. Second, the pattern needs at least one
character before its `*`, so `@import "*.scss"` is never recognised and is left
as it is.

The splice is modelled as written. It replaces the first textual occurrence of
the recognised line, so an identical text earlier in the source is replaced
instead of the recognised line. An example is a `// @import "a/*.scss";`
comment above the statement. `StepOfMatch` and `ReplaceFirstSplice` state
exactly where the replacement lands.

## Model

| member | source | states |
|---|---|---|
| Text.IndexOf | src/index.ts:117 | the result is an occurrence of the pattern, and no occurrence lies before it; none means no occurrence at all |
| Text.ReplaceFirstSplice | src/index.ts:117 | `replace` with a string pattern splices the replacement over an occurrence `k` of the pattern with no occurrence before it; `k` lies at or before any known occurrence; the text before and after it is kept |
| Text.ReplaceCharFacts | src/index.ts:92 | replacing every backslash by `/` keeps the length and every other character, turns each backslash into `/`, and leaves no backslash |
| Text.SplitCount | src/index.ts:43 | `split("\n").length` is the number of line feeds plus one |
| Text.FirstPiece | src/index.ts:63 | the first piece of a split is the prefix up to the first separator, holds no separator, and is followed by one when shorter than the text |
| Text.JoinOfSplit | src/index.ts:115 | joining the pieces of a split with the separator gives the text back |
| Text.SplitOfJoin | src/index.ts:115 | splitting a join of separator-free pieces gives the pieces back, so every piece lies on a line of its own |
| Text.JoinEmpty | src/index.ts:115 | a join of non-empty pieces is empty exactly when there are no pieces |
| Text.NatToString | src/index.ts:101 | an index is printed as a non-empty string of decimal digits |
| Text.NatToStringNoLeadingZero | src/index.ts:101 | a printed index has no leading zero: it starts with `0` exactly when it is 0 |
| Text.DecimalRoundTrip | src/index.ts:101 | reading a printed index back gives the index |
| Text.NatToStringInjective | src/index.ts:101 | distinct indices print differently |
| Paths.Extname | src/index.ts:32 | the extension is empty, or a `.` followed by characters other than `.` and `/`; it is a suffix of the last segment and shorter than it |
| Paths.ExtnameNonEmpty | src/index.ts:32 | the extension is non-empty exactly when the last segment has a `.` after its first character |
| Paths.BasenameDirname | src/index.ts:19-20 | the file name is the `/`-free suffix of the id after its last `/`; the directory is `.` without a `/`, `/` for a file at the root, and otherwise the directory, `/` and the file name spell the id |
| Paths.LastPieceIsBasename | src/index.ts:82 | the last piece of a split at `/` is the last segment |
| Paths.ParseName | src/index.ts:101 | the name followed by the extension is the last segment |
| Paths.SplitIdRoundTrip | src/index.ts:19-20 | for an absolute id without empty segments, joining the directory and the file name the hook derives gives the id back |
| Paths.RelativeOfJoin | src/index.ts:57-60 | a path globbed below a base comes back relative to that base |
| ImportRule.SpanUnique | src/index.ts:13 | a greedy repetition consumes exactly the run of class characters: the run is determined by its two boundary conditions |
| ImportRule.SpanFacts | src/index.ts:13 | a greedy repetition consumes class characters only and stops at the end or at a character outside the class |
| ImportRule.KeywordOf | src/index.ts:13 | `@import` gives the keyword `import`, `@use` gives `use`, and a keyword is found only when the text starts with `@` and its spelling |
| ImportRule.ScanFinds | src/index.ts:13 | the scan after the keyword finds marks exactly when they fit: only white space, at least one character, from the keyword to the opening quote; only non-quotes up to the closing quote, with a `*` after the pattern's first character; the `;` taken exactly when it follows the closing quote; an end comment of the required shape up to the end of the line |
| ImportRule.CutSpelling | src/index.ts:13 | the captures cut at fitting marks spell out the line again |
| ImportRule.CutWellFormed | src/index.ts:13 | the captures cut at fitting marks have the shapes of the regular expression's groups |
| ImportRule.MatchTailSound | src/index.ts:13 | a text accepted from `@` on is spelled out by its captures, which have the required shapes |
| ImportRule.LastAcceptedIsLast | src/index.ts:13 | within the range searched, no place after the one found is accepted, and when none is found no place in the range is accepted |
| ImportRule.StartCommentEndIsLast | src/index.ts:13 | whenever a line splits into a start comment of the right shape and a rest that matches, a split is found, and it ends no earlier than that one: the greedy `.*` takes the last split |
| ImportRule.MatchLineComplete | src/index.ts:13 | every line made of a start comment of the right shape and a matching rest is recognised, with a start comment at least that long |
| ImportRule.StatementRoundTrip | src/index.ts:13 | the text a well-formed statement spells out from `@` on is read back into the same keyword, spacing, quotes, pattern, `;` and end comment |
| ImportRule.RecognisesWellFormed | src/index.ts:13 | every well-formed statement is recognised when spelled out, with a start comment at least as long as its own |
| ImportRule.RecognisesStatement | src/index.ts:13 | a well-formed statement without start comment is recognised as exactly its own parts |
| ImportRule.NoStartComment | src/index.ts:13 | a line that matches from its first character has an empty start comment |
| ImportRule.MatchLineSound | src/index.ts:13 | a recognised line is spelled out exactly by its captures, and each capture has the shape its group allows: a quote-free pattern with a `*`, blanks or a `/*` comment in front, blanks or a comment behind |
| ImportRule.RecognisesPlainStatement | src/index.ts:13 | `@import "p"` or `@use "p"`, with or without `;`, is recognised whenever `p` is quote-free with a `*` after its first character, with `p` captured whole and no comments |
| ImportRule.FirstLine | src/index.ts:46-50 | a found line occurs in the text at the reported offset |
| ImportRule.FirstMatch | src/index.ts:46-50 | the whole match `result[0]` occurs in the text at the reported offset |
| ImportRule.FirstLineOffset | src/index.ts:46-50 | the reported offset is where the found line begins: past every earlier line and its terminator |
| ImportRule.FirstMatchOffset | src/index.ts:46-50 | the offset of `result[0]` is where the recognised line begins in the text |
| ImportRule.FirstLineSome | src/index.ts:46-50 | a found line is a line of the text, recognised as the reported match, and no line before it is recognised |
| ImportRule.FirstLineNone | src/index.ts:46-50 | when no line is found, no line of the text is recognised |
| ImportRule.FirstLineIsFirst | src/index.ts:46-50 | the line found is the first accepted line of the text, as `^`/`$` delimit lines, and none is found only when no line is accepted |
| ImportRule.FirstMatchIsFirst | src/index.ts:46-50 | `matchAll(...)[0]` is the first recognised line; when there is none, no line is recognised |
| ImportRule.RecognisedHasStar | src/index.ts:13 | a recognised line contains a `*` |
| ImportRule.NoStarNotRecognised | src/index.ts:13 | a line without `*` is never recognised |
| ImportRule.CommentedStatement | src/index.ts:13 | a blank, `/*` and a plain statement make a valid end comment that is itself recognised on a line of its own |
| ImportRule.EndCommentRecognisedAgain | src/index.ts:13-117 | for any two glob patterns `a` and `b`, the line `@import "a" /*@import "b"` (or with `@use`) is recognised with that end comment, and the end comment, put on its own line by the block, is recognised again, so a later rewrite of the output expands it again |
| Expansion.ExtensionTest | src/index.ts:32 | a case-insensitive unanchored search for `.sass` or `.scss` in an extension succeeds exactly when the lowered extension starts with it, since `.` occurs only first |
| Expansion.SassImporterTest | src/index.ts:38 | the importer counts as a Sass file exactly when its lowered extension starts with `.sass` |
| Expansion.SassOrScssTest | src/index.ts:29-34 | an entry is kept by the file test exactly when it is not a directory and its lowered extension starts with `.sass` or `.scss` (so `.scssx` passes too) |
| Expansion.GlobPrefix | src/index.ts:63 | the part before the first wildcard is a prefix of the pattern without `*`, followed by `*` when shorter than the pattern |
| Expansion.ResolveFrom | src/index.ts:54-80 | the search from a base on tries at least that base and no more bases than there are |
| Expansion.ResolveFromSound | src/index.ts:54-80 | the search stops at the first base with files or at the last base; every earlier base yields nothing; the files are that base's glob result |
| Expansion.ResolveSound | src/index.ts:52-80 | bases are tried in order until one yields files; when none does, the list is empty and the base is the last one tried; with no bases, nothing is tried and the base is empty |
| Expansion.ResolveBases | src/index.ts:52-80 | the search loop ends with the files and base of the search and with one warning count per base tried |
| Expansion.WarningBounds | src/index.ts:63-75 | at most one warning per base tried, none when the pattern starts with a wildcard, one per base when every base lacks the pattern's leading directory, none when every base has it |
| Expansion.SingleBaseWarning | src/index.ts:41-75 | with the importer's directory as the only base, exactly one base is tried and one warning is given exactly when the leading directory is missing below it |
| Expansion.ImportTarget | src/index.ts:89-94 | the emitted path contains no backslash |
| Expansion.ImportTargetValue | src/index.ts:89-94 | the emitted path is the file's path relative to the base, with one leading `/` or `\` dropped and every other `\` written as `/`, character by character |
| Expansion.TargetOfJoin | src/index.ts:57-94 | a file globbed below the base is emitted as its path below the base, when that path holds no `\` and does not start with `/` |
| Expansion.Survivors | src/index.ts:84-99 | there are no more statements than glob results |
| Expansion.SurvivorsSound | src/index.ts:84-99 | every survivor is a kept entry (not a directory, a `.sass`/`.scss` extension, no ignore pattern matching its target), carries that entry's target and its index in the full glob result, and survivors keep the glob order |
| Expansion.SurvivorsComplete | src/index.ts:84-99 | every kept entry is among the survivors |
| Expansion.Statements | src/index.ts:84-105 | one statement per survivor |
| Expansion.StatementsAt | src/index.ts:84-105 | the statement at each position is the one built from the survivor at that position |
| Expansion.CollectStep | src/index.ts:84-105 | one round of `forEach` pushes the entry's statement exactly when the entry is kept |
| Expansion.CollectedStatements | src/index.ts:84-105 | pushing entry by entry yields the statements of the survivors of the entries seen |
| Expansion.CollectStatements | src/index.ts:83-105 | the `forEach` loop collects exactly the statements of the survivors, in glob order |
| Expansion.PushEntry | src/index.ts:84-105 | one call of the `forEach` callback appends the entry's statement when it is kept and leaves the list as it was otherwise |
| Expansion.TrailStaticIsLastPiece | src/index.ts:82 | the trail is static exactly when the last `/`-separated piece of the pattern holds no `*` |
| Expansion.ExpandMatch | src/index.ts:107-115 | the block is the start comment (when non-empty), the statements and the end comment (when non-empty), joined with line feeds |
| Expansion.AddComments | src/index.ts:107-113 | the start comment is put first when non-empty and the end comment last when non-empty |
| Expansion.StatementShape | src/index.ts:100-103 | a statement starts with `@`, the keyword and the `"`-quoted target; it ends with `;` exactly when the importer is not a Sass file; text follows beyond the quote and `;` exactly when the trail is static, and that text starts with ` as ` and the alias; without a static trail only the `;` may follow |
| Expansion.AliasLayout | src/index.ts:101 | an alias is the name without extension, `_`, and the printed index |
| Expansion.AliasDeterminesIndex | src/index.ts:101 | equal aliases come from equal indices |
| Expansion.AliasesDistinct | src/index.ts:82-102 | the aliases in one block are pairwise distinct |
| Expansion.StatementAvoids | src/index.ts:100-103 | a statement holds a line feed or a `*` only if its target does |
| Expansion.GeneratedNotRecognised | src/index.ts:103 | a generated statement whose target has no `*` is not recognised by a later round |
| Expansion.StatementsNonEmpty | src/index.ts:103 | every statement is non-empty |
| Expansion.BlockEmpty | src/index.ts:107-117 | the block is empty, and the line vanishes, exactly when no entry survives and both comments are empty |
| Expansion.StatementsAvoidNewline | src/index.ts:89-103 | no statement holds a line feed when no globbed path does |
| Expansion.BlockLines | src/index.ts:107-115 | every piece of the block, comments included, ends up on a line of its own |
| Rewriter.Round | src/index.ts:46-117 | one pass of the loop body: no change without a recognised line; otherwise the search, expansion and splice of the first recognised line |
| Rewriter.Transform | src/index.ts:36-122 | the loop reassigns the text once per line of the original and ends with the rewrite, counting its warnings |
| Rewriter.Advance | src/index.ts:45-118 | after `i` rounds, one pass of the loop body gives the text and warning count of `i + 1` rounds |
| Rewriter.TransformHook | src/index.ts:18-25 | the hook rewrites with the last segment of the id as the file name and the rest as the directory |
| Rewriter.StepOfMatch | src/index.ts:46-117 | a round with a recognised line replaces an occurrence `k` of the line's text by the block, keeping the text before and after; no occurrence lies before `k`, and `k` lies at or before the start of the recognised line; the warnings are those of the search for the line's files |
| Rewriter.StepUnchanged | src/index.ts:47 | a round over a text without a recognised line changes nothing and gives no warning |
| Rewriter.IterateFixpoint | src/index.ts:45-47 | rounds that leave the text unchanged without warnings do so however many run |
| Rewriter.RewriteUnchanged | src/index.ts:43-47 | a text without a recognised line comes back unchanged, without warnings |
| Rewriter.RoundsPerLine | src/index.ts:43-45 | the loop runs one round more than the original has line feeds, a bound fixed before the first round |
| Rewriter.StepWarning | src/index.ts:63-75 | a round warns once exactly when the pattern's part before its first wildcard is non-empty and missing from the importer's directory |
| Rewriter.IterateStable | src/index.ts:45-117 | once a round leaves the text as it was, later rounds leave it so too |

## Left out

- The Vite plugin object (`name`, `enforce`, `map: null`) and the module-level `IMPORT_REGEX` and `options` globals are not modelled. `ignorePaths` is a parameter of the rewriter.
- `globSync`, `fs.statSync(...).isDirectory()` and `fs.existsSync` are oracles: a map of sorted glob results keyed by the joined pattern, a set of directories and a set of existing paths. `statSync` throwing on a missing file is not modelled.
- `localeCompare(..., "en")` ordering is not modelled. The glob results are taken as already sorted.
- `minimatch` is an uninterpreted function of the path and the pattern.
- `console.warn` and `ansi-colors` are not modelled. Warnings are counted in a ghost out-parameter, not printed.
- `node:path` is simplified to POSIX paths: `/` is the only separator. `join` and `relative` do not normalise `.`, `..` or repeated separators, and `relative` of a path outside the base is the path itself. `basename` and `dirname` do not strip trailing separators, so an id ending in `/` gives an empty file name.
- ImportRule.MatchLine: `\s+` and `[^"']` can cross a line terminator in JavaScript. The model matches within one line only, so a statement spread over several lines is not recognised. A line the model recognises can also be matched differently: on the two lines `/* @import "a/*" /* @import` and `"b/*"`, the greedy `.*` backtracks to the second `@import`, `\s+` takes the line feed, and the match spans both lines with pattern `b/*`; the model recognises the first line alone, with pattern `a/*` and end comment ` /* @import`.
- Rewriter.Step: `$&`, `$1` and other substitution patterns in the replacement string of `String.prototype.replace` are not expanded. The block is inserted literally.
- Rewriter.Rewrite: rewriting is not idempotent, and no idempotence is claimed. On `@use "a/*" /*@use "b/*"` the end comment lands on a line of its own and is recognised in a later round (`EndCommentRecognisedAgain`). What is proved is that a text without a recognised line is unchanged, that a generated statement without `*` is not recognised again, and that a round which changes nothing ends the changes.
- The `autoInvalidation` option of src/types.ts is declared but never read by the rewriter, and is not modelled.
