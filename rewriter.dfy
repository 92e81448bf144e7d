// The rewriter: the loop that finds the first recognised line, expands it and
// splices the block over it, as many times as the original text has lines; and the
// plugin hook that derives the importer's file name and directory from the module id.
module Rewriter {
  import opened Text
  import opened Paths
  import opened ImportRule
  import opened Expansion

  /** What one call of the rewriter works with besides the text. */
  datatype Context = Context(fileName: string, filePath: string, ignorePaths: seq<string>, o: Oracles)

  /** A text and the number of warnings given while producing it. */
  datatype Outcome = Outcome(text: string, warnings: nat)

  /** The search outcome for a recognised statement: only the importer's directory
      is searched. */
  function ResolveIn(c: Context, m: ImportMatch): Resolution
  {
    Resolve(c.o, [c.filePath], m.pattern)
  }

  /** The block that replaces the recognised statement `m`. */
  function BlockFor(c: Context, m: ImportMatch): string
  {
    var r := ResolveIn(c, m);
    ComposeBlock(c.o, c.ignorePaths, IsSassImporter(c.fileName), m, r.files, r.basePath)
  }

  /** The warnings given while searching for `m`'s files. */
  function WarningsFor(c: Context, m: ImportMatch): nat
  {
    Warnings(c.o, [c.filePath][..ResolveIn(c, m).tried], m.pattern)
  }

  /** One round of the loop: nothing happens when no line is recognised; otherwise
      the first occurrence of the first recognised line is replaced by its block. */
  function Step(c: Context, s: string): Outcome
  {
    match FirstMatch(s)
    case None => Outcome(s, 0)
    case Some(l) => Outcome(ReplaceFirst(s, l.m.rule, BlockFor(c, l.m)), WarningsFor(c, l.m))
  }

  /** `n` rounds of `step`, with the warnings of all of them. */
  function Iterate(step: string -> Outcome, src: string, n: nat): Outcome
    decreases n, 1
  {
    if n == 0 then Outcome(src, 0) else Last(step, src, n)
  }

  /** The `n`th round applied to the text the rounds before it left, with the
      warnings of all `n` rounds. */
  function Last(step: string -> Outcome, src: string, n: nat): Outcome
    requires n > 0
    decreases n, 0
  {
    var before := Iterate(step, src, n - 1);
    var after := step(before.text);
    Outcome(after.text, before.warnings + after.warnings)
  }

  /** One more round applies `step` to the text the earlier rounds left and adds its
      warnings. */
  lemma IterateNext(step: string -> Outcome, src: string, n: nat)
    ensures Iterate(step, src, n + 1) ==
      Outcome(step(Iterate(step, src, n).text).text,
        Iterate(step, src, n).warnings + step(Iterate(step, src, n).text).warnings)
  {
    assert Iterate(step, src, n + 1) == Last(step, src, n + 1);
  }

  /** The rounds of the rewriter. */
  function Rounds(c: Context): string -> Outcome
  {
    s => Step(c, s)
  }

  /** `src.split("\n").length`. */
  function LineCount(src: string): nat
  {
    |SplitOn(src, {'\n'})|
  }

  /** The whole rewrite: one round per line of the original text. */
  function Rewrite(c: Context, src: string): Outcome
  {
    Iterate(Rounds(c), src, LineCount(src))
  }

  /** One round of the rewriter's loop: find the first recognised line, search for
      its files, build the block and splice it in. */
  method Round(code: string, fileName: string, filePath: string, ignorePaths: seq<string>, o: Oracles)
    returns (next: string, ghost warnings: nat)
    ensures Outcome(next, warnings) == Rounds(Context(fileName, filePath, ignorePaths, o))(code)
  {
    ghost var c := Context(fileName, filePath, ignorePaths, o);
    var isSass := IsSassImporter(fileName);
    var searchBases := [filePath];
    var result := FirstMatch(code);
    if result.None? {
      return code, 0;
    }
    var m := result.value.m;
    var files, basePath, w := ResolveBases(o, searchBases, m.pattern);
    var block := ExpandMatch(o, ignorePaths, isSass, m, files, basePath);
    assert block == BlockFor(c, m) && w == WarningsFor(c, m);
    next := ReplaceFirst(code, m.rule, block);
    warnings := w;
  }

  /** The rewriter's loop: as many rounds as the original text has lines. `code` is
      the text being rewritten; `warnings` counts the warnings printed. */
  method Transform(src: string, fileName: string, filePath: string, ignorePaths: seq<string>, o: Oracles)
    returns (code: string, ghost warnings: nat)
    ensures code == Rewrite(Context(fileName, filePath, ignorePaths, o), src).text
    ensures warnings == Rewrite(Context(fileName, filePath, ignorePaths, o), src).warnings
  {
    var contentLinesCount := LineCount(src);
    code := src;
    warnings := 0;
    for i := 0 to contentLinesCount
      invariant Outcome(code, warnings) == Iterate(Rounds(Context(fileName, filePath, ignorePaths, o)), src, i)
    {
      code, warnings := Advance(src, i, code, warnings, fileName, filePath, ignorePaths, o);
    }
  }

  /** One pass of the rewriter's loop: after `i` rounds, the next one, with its
      warnings added to those printed so far. */
  method Advance(ghost src: string, ghost i: nat, code: string, ghost warnings: nat,
                 fileName: string, filePath: string, ignorePaths: seq<string>, o: Oracles)
    returns (next: string, ghost total: nat)
    requires Outcome(code, warnings) == Iterate(Rounds(Context(fileName, filePath, ignorePaths, o)), src, i)
    ensures Outcome(next, total) == Iterate(Rounds(Context(fileName, filePath, ignorePaths, o)), src, i + 1)
  {
    ghost var w;
    next, w := Round(code, fileName, filePath, ignorePaths, o);
    IterateNext(Rounds(Context(fileName, filePath, ignorePaths, o)), src, i);
    total := warnings + w;
  }

  /** The plugin hook: the importer's file name is the last segment of the module id
      and its directory the rest. */
  method TransformHook(src: string, id: string, ignorePaths: seq<string>, o: Oracles)
    returns (code: string, ghost warnings: nat)
    ensures code == Rewrite(Context(Basename(id), Dirname(id), ignorePaths, o), src).text
    ensures warnings == Rewrite(Context(Basename(id), Dirname(id), ignorePaths, o), src).warnings
  {
    var fileName := Basename(id);
    var filePath := Dirname(id);
    code, warnings := Transform(src, fileName, filePath, ignorePaths, o);
  }

  /** A round that recognises a line replaces the first occurrence `k` of that
      line's text by the line's block, keeping the text around it, and gives the
      warnings of the search for the line's files. Nothing before the occurrence
      spells the line's text, and it lies at or before the start of the recognised
      line. */
  lemma StepOfMatch(c: Context, s: string, l: Located) returns (k: nat)
    requires FirstMatch(s) == Some(l)
    ensures k <= l.offset && SplicedAt(s, l.m.rule, BlockFor(c, l.m), k, Step(c, s).text)
    ensures l.line < |Lines(s)| && k <= LineStart(Lines(s), l.line)
    ensures Step(c, s).warnings == WarningsFor(c, l.m)
  {
    FirstMatchOffset(s, l);
    StepReplaces(c, s, l);
    k := ReplaceFirstSplice(s, l.m.rule, BlockFor(c, l.m), l.offset);
  }

  lemma StepReplaces(c: Context, s: string, l: Located)
    requires FirstMatch(s) == Some(l)
    ensures Step(c, s) == Outcome(ReplaceFirst(s, l.m.rule, BlockFor(c, l.m)), WarningsFor(c, l.m))
    ensures OccursAt(s, l.m.rule, l.offset)
  {
  }

  /** A round over a text with no recognised line changes nothing and warns about
      nothing. */
  lemma StepUnchanged(c: Context, s: string)
    requires forall k :: 0 <= k < |Lines(s)| ==> MatchLine(Lines(s)[k]).None?
    ensures Step(c, s) == Outcome(s, 0)
  {
    FirstMatchIsFirst(s);
  }

  /** Rounds that leave a text unchanged without warnings leave it so however many
      of them run. */
  lemma {:induction false} IterateFixpoint(step: string -> Outcome, src: string, n: nat)
    requires step(src) == Outcome(src, 0)
    ensures Iterate(step, src, n) == Outcome(src, 0)
  {
    if n > 0 {
      IterateFixpoint(step, src, n - 1);
    }
  }

  /** A text with no recognised line comes back unchanged, without warnings. */
  lemma RewriteUnchanged(c: Context, src: string)
    requires forall k :: 0 <= k < |Lines(src)| ==> MatchLine(Lines(src)[k]).None?
    ensures Rewrite(c, src) == Outcome(src, 0)
  {
    StepUnchanged(c, src);
    IterateFixpoint(Rounds(c), src, LineCount(src));
  }

  /** The loop runs once per line of the original text: one more round than the text
      has line feeds. */
  lemma RoundsPerLine(src: string)
    ensures LineCount(src) == Count(src, '\n') + 1
  {
    SplitCount(src, '\n');
  }

  /** A round warns once exactly when the part of the pattern before its first
      wildcard is non-empty and missing from the importer's directory. */
  lemma StepWarning(c: Context, s: string)
    requires FirstMatch(s).Some?
    ensures var p := FirstMatch(s).value.m.pattern;
      Step(c, s).warnings == if |GlobPrefix(p)| > 0 && Join(c.filePath, GlobPrefix(p)) !in c.o.existing then 1 else 0
  {
    SingleBaseWarning(c.o, c.filePath, FirstMatch(s).value.m.pattern);
  }

  /** Once a round leaves the text as it was, so do all later rounds. */
  lemma {:induction false} IterateStable(step: string -> Outcome, src: string, n: nat, extra: nat)
    requires step(Iterate(step, src, n).text).text == Iterate(step, src, n).text
    ensures Iterate(step, src, n + extra).text == Iterate(step, src, n).text
    decreases extra
  {
    if extra > 0 {
      IterateStable(step, src, n, extra - 1);
    }
  }
}
