// Expansion of one recognised statement: the search bases are tried in order until
// one yields files, the files are filtered, and every remaining file becomes one
// statement of the block that replaces the recognised line.
module Expansion {
  import opened Text
  import opened Paths
  import opened ImportRule

  /** What the rewriter learns from the file system and from its libraries. `glob`
      results are keyed by the joined pattern and are already in sorted order;
      `ignoreMatch(path, pattern)` is the answer of the pattern matcher. */
  datatype Oracles = Oracles(
    globResults: map<string, seq<string>>,
    directories: set<string>,
    existing: set<string>,
    ignoreMatch: (string, string) -> bool)

  /** The sorted files matching `pattern` below `base`. */
  function Glob(o: Oracles, base: string, pattern: string): seq<string>
  {
    var key := Join(base, pattern);
    if key in o.globResults then o.globResults[key] else []
  }

  /** The importer is a Sass file: its extension matches `/\.sass/i`. */
  predicate IsSassImporter(fileName: string)
  {
    ContainsIgnoreCase(Extname(fileName), ".sass")
  }

  /** A globbed entry is imported only when it is not a directory and its extension
      matches `/\.sass|\.scss/i`. */
  predicate IsSassOrScss(o: Oracles, file: string)
  {
    var ext := Extname(file);
    file !in o.directories && (ContainsIgnoreCase(ext, ".sass") || ContainsIgnoreCase(ext, ".scss"))
  }

  /** An extension holds a `.` only at its start, so the unanchored test for an
      extension beginning with `.` succeeds exactly when the extension, folded to
      lower case, starts with it. */
  lemma ExtensionTest(file: string, needle: string)
    requires |needle| > 0 && needle[0] == '.'
    ensures ContainsIgnoreCase(Extname(file), needle) <==> OccursAt(LowerAscii(Extname(file)), needle, 0)
  {
    var ext := Extname(file);
    var low := LowerAscii(ext);
    if IndexOf(low, needle).Some? {
      var k := IndexOf(low, needle).value;
      assert low[k] == low[k..k + |needle|][0];
      assert LowerChar(ext[k]) == '.';
    }
  }

  /** The importer counts as a Sass file exactly when its extension starts with
      `.sass` in any case (`.SASS`, `.Sass`, and also `.sassx`). */
  lemma SassImporterTest(fileName: string)
    ensures IsSassImporter(fileName) <==> OccursAt(LowerAscii(Extname(fileName)), ".sass", 0)
  {
    ExtensionTest(fileName, ".sass");
  }

  /** An entry is kept by the extension test exactly when it is not a directory and
      its extension starts with `.sass` or `.scss` in any case. */
  lemma SassOrScssTest(o: Oracles, file: string)
    ensures IsSassOrScss(o, file) <==>
      && file !in o.directories
      && (OccursAt(LowerAscii(Extname(file)), ".sass", 0) || OccursAt(LowerAscii(Extname(file)), ".scss", 0))
  {
    ExtensionTest(file, ".sass");
    ExtensionTest(file, ".scss");
  }

  /** `pattern.split("*")[0]`: the part of the pattern before its first wildcard. */
  function GlobPrefix(pattern: string): (prefix: string)
    ensures |prefix| <= |pattern| && prefix == pattern[..|prefix|]
    ensures forall i :: 0 <= i < |prefix| ==> prefix[i] != '*'
    ensures |prefix| < |pattern| ==> pattern[|prefix|] == '*'
  {
    FirstPiece(pattern, {'*'});
    SplitOn(pattern, {'*'})[0]
  }

  /** A warning is given for a search base when the pattern has a non-empty part
      before its first wildcard and that part does not exist below the base. */
  predicate Warns(o: Oracles, base: string, pattern: string)
  {
    var prefix := GlobPrefix(pattern);
    |prefix| > 0 && Join(base, prefix) !in o.existing
  }

  /** The number of warnings given while trying `bases`. */
  function Warnings(o: Oracles, bases: seq<string>, pattern: string): nat
  {
    if bases == [] then 0
    else Warnings(o, bases[..|bases| - 1], pattern) + (if Warns(o, bases[|bases| - 1], pattern) then 1 else 0)
  }

  /** The outcome of the search: the files found, the base they were found under,
      and how many bases were tried. */
  datatype Resolution = Resolution(files: seq<string>, basePath: string, tried: nat)

  function ResolveFrom(o: Oracles, bases: seq<string>, pattern: string, i: nat): (r: Resolution)
    requires i < |bases|
    ensures i < r.tried <= |bases|
    decreases |bases| - i
  {
    var files := Glob(o, bases[i], pattern);
    if |files| > 0 || i == |bases| - 1 then Resolution(files, bases[i], i + 1)
    else ResolveFrom(o, bases, pattern, i + 1)
  }

  /** The search from base `i` on stops at the first base with files, or at the last
      base. */
  lemma {:induction false} ResolveFromSound(o: Oracles, bases: seq<string>, pattern: string, i: nat)
    requires i < |bases|
    ensures var r := ResolveFrom(o, bases, pattern, i);
      && r.basePath == bases[r.tried - 1]
      && r.files == Glob(o, r.basePath, pattern)
      && (forall k :: i <= k < r.tried - 1 ==> Glob(o, bases[k], pattern) == [])
      && (r.files != [] || r.tried == |bases|)
    decreases |bases| - i
  {
    ResolveFromNext(o, bases, pattern, i);
    if Glob(o, bases[i], pattern) == [] && i < |bases| - 1 {
      ResolveFromSound(o, bases, pattern, i + 1);
    }
  }

  /** The outcome of trying the search bases in order. */
  function Resolve(o: Oracles, bases: seq<string>, pattern: string): (r: Resolution)
    ensures r.tried <= |bases|
  {
    if bases == [] then Resolution([], "", 0) else ResolveFrom(o, bases, pattern, 0)
  }

  /** The search bases are tried in order and the search stops at the first base
      with files; when none has any, the file list is empty and the base is the last
      one tried. With no bases at all nothing is tried. */
  lemma ResolveSound(o: Oracles, bases: seq<string>, pattern: string)
    ensures var r := Resolve(o, bases, pattern);
      && (bases == [] ==> r == Resolution([], "", 0))
      && (bases != [] ==>
        && 1 <= r.tried && r.basePath == bases[r.tried - 1]
        && r.files == Glob(o, r.basePath, pattern)
        && (forall k :: 0 <= k < r.tried - 1 ==> Glob(o, bases[k], pattern) == [])
        && (r.files != [] || r.tried == |bases|))
  {
    if bases != [] {
      ResolveFromSound(o, bases, pattern, 0);
    }
  }

  /** Trying one more base adds that base's warning to the count. */
  lemma WarningsNext(o: Oracles, bases: seq<string>, pattern: string, i: nat)
    requires i < |bases|
    ensures Warnings(o, bases[..i + 1], pattern) ==
      Warnings(o, bases[..i], pattern) + if Warns(o, bases[i], pattern) then 1 else 0
  {
    assert bases[..i + 1][..i] == bases[..i];
  }

  /** The search from base `i` on ends there when that base has files or is the last
      one, and goes on with the next base otherwise. */
  lemma ResolveFromNext(o: Oracles, bases: seq<string>, pattern: string, i: nat)
    requires i < |bases|
    ensures |Glob(o, bases[i], pattern)| > 0 || i == |bases| - 1 ==>
      ResolveFrom(o, bases, pattern, i) == Resolution(Glob(o, bases[i], pattern), bases[i], i + 1)
    ensures |Glob(o, bases[i], pattern)| == 0 && i < |bases| - 1 ==>
      ResolveFrom(o, bases, pattern, i) == ResolveFrom(o, bases, pattern, i + 1)
  {
  }

  /** The search loop: `files` and `basePath` are updated base by base until files
      are found; `warnings` counts the warnings given on the way. */
  method ResolveBases(o: Oracles, bases: seq<string>, pattern: string)
    returns (files: seq<string>, basePath: string, ghost warnings: nat)
    ensures files == Resolve(o, bases, pattern).files
    ensures basePath == Resolve(o, bases, pattern).basePath
    ensures warnings == Warnings(o, bases[..Resolve(o, bases, pattern).tried], pattern)
  {
    ghost var r := Resolve(o, bases, pattern);
    files := [];
    basePath := "";
    warnings := 0;
    var i := 0;
    while i < |bases|
      invariant i <= |bases|
      invariant i < |bases| ==> r == ResolveFrom(o, bases, pattern, i)
      invariant i == |bases| ==> r == Resolution(files, basePath, i)
      invariant warnings == Warnings(o, bases[..i], pattern)
    {
      basePath := bases[i];
      files := Glob(o, basePath, pattern);
      WarningsNext(o, bases, pattern, i);
      ResolveFromNext(o, bases, pattern, i);
      if Warns(o, basePath, pattern) {
        warnings := warnings + 1;
      }
      if |files| > 0 {
        break;
      }
      i := i + 1;
    }
  }

  /** Exactly the tried bases without the pattern's leading directory warn: none when
      the pattern starts with a wildcard, one per base when every base lacks it. */
  lemma {:induction false} WarningBounds(o: Oracles, bases: seq<string>, pattern: string)
    ensures Warnings(o, bases, pattern) <= |bases|
    ensures GlobPrefix(pattern) == [] ==> Warnings(o, bases, pattern) == 0
    ensures (GlobPrefix(pattern) != [] &&
        forall k :: 0 <= k < |bases| ==> Join(bases[k], GlobPrefix(pattern)) !in o.existing) ==>
      Warnings(o, bases, pattern) == |bases|
    ensures (forall k :: 0 <= k < |bases| ==> Join(bases[k], GlobPrefix(pattern)) in o.existing) ==>
      Warnings(o, bases, pattern) == 0
    decreases |bases|
  {
    if bases != [] {
      var init := bases[..|bases| - 1];
      WarningBounds(o, init, pattern);
    }
  }

  /** With a single search base, one warning is given exactly when the pattern's
      leading directory is missing below it. */
  lemma SingleBaseWarning(o: Oracles, base: string, pattern: string)
    ensures Resolve(o, [base], pattern).tried == 1
    ensures Warnings(o, [base][..Resolve(o, [base], pattern).tried], pattern) ==
      if |GlobPrefix(pattern)| > 0 && Join(base, GlobPrefix(pattern)) !in o.existing then 1 else 0
  {
    assert [base][..1] == [base];
    assert [base][..0] == [];
  }

  /** The path written into a statement: the file relative to the base, with every
      `\` turned into `/` and one leading `/` removed. */
  function ImportTarget(base: string, file: string): (target: string)
    ensures forall i :: 0 <= i < |target| ==> target[i] != '\\'
  {
    var t := ReplaceChar(Relative(base, file), '\\', '/');
    if |t| > 0 && t[0] == '/' then t[1..] else t
  }

  /** The target character by character: the file's path relative to the base with
      one leading `/` or `\` dropped, and every `\` written as `/`. */
  lemma ImportTargetValue(base: string, file: string)
    ensures var rel := Relative(base, file);
      var d := if |rel| > 0 && (rel[0] == '/' || rel[0] == '\\') then 1 else 0;
      var target := ImportTarget(base, file);
      && |target| == |rel| - d
      && forall i :: 0 <= i < |target| ==> target[i] == (if rel[i + d] == '\\' then '/' else rel[i + d])
  {
  }

  /** Any of the ignore patterns matches the target. */
  predicate Ignored(o: Oracles, ignorePaths: seq<string>, target: string)
  {
    exists p :: p in ignorePaths && o.ignoreMatch(target, p)
  }

  /** A globbed entry found under `base` becomes a statement. */
  predicate Kept(o: Oracles, ignorePaths: seq<string>, base: string, file: string)
  {
    IsSassOrScss(o, file) && !Ignored(o, ignorePaths, ImportTarget(base, file))
  }

  /** `Kept` for the entries found under `base`, as a function of the entry. */
  function KeepUnder(o: Oracles, ignorePaths: seq<string>, base: string): string -> bool
  {
    file => Kept(o, ignorePaths, base, file)
  }

  /** `ImportTarget` for the entries found under `base`, as a function of the entry. */
  function TargetUnder(base: string): string -> string
  {
    file => ImportTarget(base, file)
  }

  /** A kept entry: its position in the full glob result and its target. */
  datatype Survivor = Survivor(index: nat, target: string)

  /** The entries that `keep` accepts, in the order of the glob result, each with its
      position in the full result and its target. */
  function Survivors(files: seq<string>, keep: string -> bool, targetOf: string -> string): (s: seq<Survivor>)
    ensures |s| <= |files|
    decreases |files|
  {
    if files == [] then []
    else
      var n := |files| - 1;
      var init := Survivors(files[..n], keep, targetOf);
      if keep(files[n]) then init + [Survivor(n, targetOf(files[n]))]
      else init
  }

  /** Every survivor is an accepted entry of the glob result, with that entry's
      target, and the survivors keep the order of the glob result. */
  lemma {:induction false} SurvivorsSound(files: seq<string>, keep: string -> bool, targetOf: string -> string)
    ensures forall j :: 0 <= j < |Survivors(files, keep, targetOf)| ==>
      var s := Survivors(files, keep, targetOf)[j];
      s.index < |files| && keep(files[s.index]) && s.target == targetOf(files[s.index])
    ensures forall j, k :: 0 <= j < k < |Survivors(files, keep, targetOf)| ==>
      Survivors(files, keep, targetOf)[j].index < Survivors(files, keep, targetOf)[k].index
    decreases |files|
  {
    if files != [] {
      var n := |files| - 1;
      var fs := files[..n];
      SurvivorsSound(fs, keep, targetOf);
      var init := Survivors(fs, keep, targetOf);
      assert forall j :: 0 <= j < |init| ==> init[j].index < n && fs[init[j].index] == files[init[j].index];
    }
  }

  /** Extending the glob result by one entry extends the survivors by that entry
      when it is kept. */
  lemma SurvivorsSnoc(files: seq<string>, keep: string -> bool, targetOf: string -> string, index: nat)
    requires index < |files|
    ensures Survivors(files[..index + 1], keep, targetOf) ==
      Survivors(files[..index], keep, targetOf)
        + (if keep(files[index]) then [Survivor(index, targetOf(files[index]))] else [])
  {
    assert files[..index + 1][..index] == files[..index];
  }

  /** Every entry that `keep` accepts is among the survivors. */
  lemma {:induction false} SurvivorsComplete(files: seq<string>, keep: string -> bool, targetOf: string -> string, i: nat)
    requires i < |files| && keep(files[i])
    ensures exists j :: 0 <= j < |Survivors(files, keep, targetOf)| && Survivors(files, keep, targetOf)[j].index == i
    decreases |files|
  {
    var n := |files| - 1;
    var s := Survivors(files, keep, targetOf);
    if i == n {
      assert s[|s| - 1].index == i;
    } else {
      var init := Survivors(files[..n], keep, targetOf);
      assert files[..n][i] == files[i];
      SurvivorsComplete(files[..n], keep, targetOf, i);
      var j :| 0 <= j < |init| && init[j].index == i;
      assert s[j] == init[j];
    }
  }

  /** The last segment of the pattern holds no wildcard, so that several statements
      could import modules of the same name and need aliases. */
  predicate IsGlobTrailStatic(pattern: string)
  {
    forall i :: 0 <= i < |Basename(pattern)| ==> Basename(pattern)[i] != '*'
  }

  /** The trail is static exactly when the last piece of `pattern.split("/")` holds
      no `*`. */
  lemma TrailStaticIsLastPiece(pattern: string)
    ensures var pieces := SplitOn(pattern, {'/'});
      IsGlobTrailStatic(pattern) <==> '*' !in pieces[|pieces| - 1]
  {
    LastPieceIsBasename(pattern);
  }

  /** `<name without extension>_<index>`. */
  function Alias(target: string, index: nat): string
  {
    ParseName(target) + "_" + NatToString(index)
  }

  /** `@<keyword> "<target>"`, with ` as <alias>` when the trail is static, and with a
      `;` unless the importer is a Sass file. */
  function Statement(kw: Keyword, s: Survivor, isSass: bool, trailStatic: bool): string
  {
    "@" + KeywordText(kw) + " \"" + s.target + "\""
      + (if trailStatic then " as " + Alias(s.target, s.index) else "")
      + (if isSass then "" else ";")
  }

  /** One statement per survivor, in the survivors' order. */
  function Statements(kw: Keyword, survivors: seq<Survivor>, isSass: bool, trailStatic: bool): (r: seq<string>)
    ensures |r| == |survivors|
    decreases |survivors|
  {
    if survivors == [] then []
    else
      var n := |survivors| - 1;
      Statements(kw, survivors[..n], isSass, trailStatic) + [Statement(kw, survivors[n], isSass, trailStatic)]
  }

  /** The statement at each position is the one for the survivor at that position. */
  lemma {:induction false} StatementsAt(kw: Keyword, survivors: seq<Survivor>, isSass: bool, trailStatic: bool)
    ensures forall j :: 0 <= j < |survivors| ==>
      Statements(kw, survivors, isSass, trailStatic)[j] == Statement(kw, survivors[j], isSass, trailStatic)
    decreases |survivors|
  {
    if survivors != [] {
      var n := |survivors| - 1;
      StatementsAt(kw, survivors[..n], isSass, trailStatic);
    }
  }

  lemma StatementsSnoc(kw: Keyword, survivors: seq<Survivor>, extra: seq<Survivor>, isSass: bool, trailStatic: bool)
    requires |extra| <= 1
    ensures Statements(kw, survivors + extra, isSass, trailStatic) ==
      Statements(kw, survivors, isSass, trailStatic) + Statements(kw, extra, isSass, trailStatic)
  {
    if |extra| == 1 {
      assert (survivors + extra)[..|survivors|] == survivors;
    } else {
      assert survivors + extra == survivors;
    }
  }

  /** The lines of the block: the start comment, the statements, the end comment,
      each comment only when it is non-empty. */
  function Pieces(m: ImportMatch, statements: seq<string>): seq<string>
  {
    (if m.startComment != "" then [m.startComment] else [])
      + statements
      + (if m.endComment != "" then [m.endComment] else [])
  }

  /** The statements for the files found under `base`. */
  function StatementsFor(o: Oracles, ignorePaths: seq<string>, isSass: bool, m: ImportMatch,
    files: seq<string>, base: string): seq<string>
  {
    var survivors := Survivors(files, KeepUnder(o, ignorePaths, base), TargetUnder(base));
    Statements(m.keyword, survivors, isSass, IsGlobTrailStatic(m.pattern))
  }

  /** The text that replaces the recognised line. */
  function ComposeBlock(o: Oracles, ignorePaths: seq<string>, isSass: bool, m: ImportMatch,
    files: seq<string>, base: string): string
  {
    JoinWith(Pieces(m, StatementsFor(o, ignorePaths, isSass, m, files, base)), '\n')
  }

  /** One round of the expansion loop adds the statement for the entry at `index`
      exactly when the entry is kept. */
  lemma CollectStep(o: Oracles, ignorePaths: seq<string>, isSass: bool, kw: Keyword,
    files: seq<string>, basePath: string, index: nat, trailStatic: bool)
    requires index < |files|
    ensures var keep, targetOf := KeepUnder(o, ignorePaths, basePath), TargetUnder(basePath);
      var file := files[index];
      Statements(kw, Survivors(files[..index + 1], keep, targetOf), isSass, trailStatic) ==
        Statements(kw, Survivors(files[..index], keep, targetOf), isSass, trailStatic)
        + (if IsSassOrScss(o, file) && !Ignored(o, ignorePaths, ImportTarget(basePath, file))
           then [Statement(kw, Survivor(index, ImportTarget(basePath, file)), isSass, trailStatic)]
           else [])
  {
    var keep, targetOf := KeepUnder(o, ignorePaths, basePath), TargetUnder(basePath);
    var file := files[index];
    SurvivorsSnoc(files, keep, targetOf, index);
    var extra := if keep(file) then [Survivor(index, targetOf(file))] else [];
    StatementsSnoc(kw, Survivors(files[..index], keep, targetOf), extra, isSass, trailStatic);
    assert keep(file) == Kept(o, ignorePaths, basePath, file);
    assert targetOf(file) == ImportTarget(basePath, file);
  }

  /** The statements for the first `n` globbed entries, entry by entry. */
  function Collected(o: Oracles, ignorePaths: seq<string>, isSass: bool, m: ImportMatch,
    files: seq<string>, basePath: string, n: nat): seq<string>
    requires n <= |files|
  {
    if n == 0 then []
    else Collected(o, ignorePaths, isSass, m, files, basePath, n - 1) + Pushed(o, ignorePaths, isSass, m, basePath, files[n - 1], n - 1)
  }

  /** What the `forEach` callback pushes for the entry `file` at `index`. */
  function Pushed(o: Oracles, ignorePaths: seq<string>, isSass: bool, m: ImportMatch,
    basePath: string, file: string, index: nat): seq<string>
  {
    if Kept(o, ignorePaths, basePath, file)
    then [Statement(m.keyword, Survivor(index, ImportTarget(basePath, file)), isSass, IsGlobTrailStatic(m.pattern))]
    else []
  }

  /** Collecting entry by entry gives one statement per survivor of the first `n`
      entries. */
  lemma {:induction false} CollectedStatements(o: Oracles, ignorePaths: seq<string>, isSass: bool, m: ImportMatch,
    files: seq<string>, basePath: string, n: nat)
    requires n <= |files|
    ensures Collected(o, ignorePaths, isSass, m, files, basePath, n) ==
      StatementsFor(o, ignorePaths, isSass, m, files[..n], basePath)
    decreases n
  {
    if n > 0 {
      CollectedStatements(o, ignorePaths, isSass, m, files, basePath, n - 1);
      CollectStep(o, ignorePaths, isSass, m.keyword, files, basePath, n - 1, IsGlobTrailStatic(m.pattern));
    }
  }

  /** The expansion loop: every kept entry is pushed as a statement, in the order of
      the glob result. */
  method CollectStatements(o: Oracles, ignorePaths: seq<string>, isSass: bool, m: ImportMatch,
    files: seq<string>, basePath: string) returns (imports: seq<string>)
    ensures imports == StatementsFor(o, ignorePaths, isSass, m, files, basePath)
  {
    var trailStatic := IsGlobTrailStatic(m.pattern);
    imports := [];
    for index := 0 to |files|
      invariant imports == Collected(o, ignorePaths, isSass, m, files, basePath, index)
    {
      imports := PushEntry(o, ignorePaths, isSass, m, basePath, trailStatic, files[index], index, imports);
    }
    CollectedStatements(o, ignorePaths, isSass, m, files, basePath, |files|);
    assert files[..|files|] == files;
  }

  /** The `forEach` callback: an entry that is not a Sass or SCSS file is skipped;
      otherwise its target is computed and its statement pushed unless an ignore
      pattern matches the target. */
  method PushEntry(o: Oracles, ignorePaths: seq<string>, isSass: bool, m: ImportMatch,
    basePath: string, trailStatic: bool, file: string, index: nat, imports: seq<string>)
    returns (next: seq<string>)
    requires trailStatic == IsGlobTrailStatic(m.pattern)
    ensures next == imports + Pushed(o, ignorePaths, isSass, m, basePath, file, index)
  {
    next := imports;
    if !IsSassOrScss(o, file) {
      return;
    }
    var target := ImportTarget(basePath, file);
    if !Ignored(o, ignorePaths, target) {
      next := imports + [Statement(m.keyword, Survivor(index, target), isSass, trailStatic)];
    }
  }

  /** The statements with the comments put in front and behind, joined into lines. */
  method ExpandMatch(o: Oracles, ignorePaths: seq<string>, isSass: bool, m: ImportMatch,
    files: seq<string>, basePath: string) returns (block: string)
    ensures block == ComposeBlock(o, ignorePaths, isSass, m, files, basePath)
  {
    var imports := CollectStatements(o, ignorePaths, isSass, m, files, basePath);
    imports := AddComments(m, imports);
    block := JoinWith(imports, '\n');
  }

  /** `unshift` of the start comment and `push` of the end comment, each only when
      it is non-empty. */
  method AddComments(m: ImportMatch, statements: seq<string>) returns (imports: seq<string>)
    ensures imports == Pieces(m, statements)
  {
    imports := statements;
    ghost var front: seq<string> := if m.startComment != "" then [m.startComment] else [];
    ghost var back: seq<string> := if m.endComment != "" then [m.endComment] else [];
    if m.startComment != "" {
      imports := [m.startComment] + imports;
    }
    assert imports == front + statements;
    if m.endComment != "" {
      imports := imports + [m.endComment];
    }
    assert imports == front + statements + back;
  }

  /** Every generated statement keeps the keyword and quotes the target with `"`; it
      ends with `;` exactly when the importer is not a Sass file. When the trail is
      static, ` as ` and the alias follow the quoted target; otherwise only the `;`
      may. */
  lemma StatementShape(kw: Keyword, s: Survivor, isSass: bool, trailStatic: bool)
    ensures var r := Statement(kw, s, isSass, trailStatic);
      var head := "@" + KeywordText(kw) + " \"" + s.target + "\"";
      && StartsWith(r, head)
      && (r[|r| - 1] == ';' <==> !isSass)
      && (trailStatic <==> |r| > |head| + 1)
    ensures var r := Statement(kw, s, isSass, trailStatic);
      var head := "@" + KeywordText(kw) + " \"" + s.target + "\"";
      var tail := " as " + Alias(s.target, s.index);
      && (trailStatic ==> |head| + |tail| <= |r| && r[|head|..|head| + |tail|] == tail)
      && (!trailStatic ==> r == head + (if isSass then "" else ";"))
  {
    var head := "@" + KeywordText(kw) + " \"" + s.target + "\"";
    var tail := if trailStatic then " as " + Alias(s.target, s.index) else "";
    if trailStatic {
      AliasTail(s.target, s.index);
    }
    StatementParts(head, tail, isSass);
  }

  /** The ` as <alias>` part of a statement ends with a digit of the index. */
  lemma AliasTail(target: string, index: nat)
    ensures var tail := " as " + Alias(target, index);
      |tail| >= 2 && IsDigit(tail[|tail| - 1])
  {
    var a := Alias(target, index);
    AliasLayout(target, index);
    assert (" as " + a)[|" as " + a| - 1] == a[|a| - 1];
  }

  lemma StatementParts(head: string, tail: string, isSass: bool)
    requires |head| > 0 && head[|head| - 1] == '"'
    requires tail == [] || (|tail| >= 2 && IsDigit(tail[|tail| - 1]))
    ensures var r := head + tail + (if isSass then "" else ";");
      && StartsWith(r, head)
      && (r[|r| - 1] == ';' <==> !isSass)
      && (tail != [] <==> |r| > |head| + 1)
  {
    var r := head + tail + (if isSass then "" else ";");
    assert r[..|head|] == head;
  }

  /** An alias starts with the target's name; the characters after the `_` that
      follows it spell the index. */
  lemma AliasLayout(target: string, index: nat)
    ensures var a := Alias(target, index);
      var p := |ParseName(target)|;
      && p < |a| && a[..p] == ParseName(target) && a[p] == '_' && a[p + 1..] == NatToString(index)
      && (forall j :: p < j < |a| ==> IsDigit(a[j]))
  {
    var a := Alias(target, index);
    var p := |ParseName(target)|;
    assert a[p + 1..] == NatToString(index);
    forall j | p < j < |a| ensures IsDigit(a[j]) {
      assert a[j] == a[p + 1..][j - p - 1];
    }
  }

  /** An alias determines the index it was made from. */
  lemma AliasDeterminesIndex(t1: string, i1: nat, t2: string, i2: nat)
    ensures Alias(t1, i1) == Alias(t2, i2) ==> i1 == i2
  {
    if Alias(t1, i1) == Alias(t2, i2) {
      AliasLayout(t1, i1);
      AliasLayout(t2, i2);
      var p1, p2 := |ParseName(t1)|, |ParseName(t2)|;
      assert p1 == p2;
      NatToStringInjective(i1, i2);
    }
  }

  /** The aliases of one block are pairwise distinct, because the indices of the
      survivors are. */
  lemma AliasesDistinct(files: seq<string>, keep: string -> bool, targetOf: string -> string)
    ensures var s := Survivors(files, keep, targetOf);
      forall j, k :: 0 <= j < k < |s| ==> Alias(s[j].target, s[j].index) != Alias(s[k].target, s[k].index)
  {
    var s := Survivors(files, keep, targetOf);
    SurvivorsSound(files, keep, targetOf);
    forall j, k | 0 <= j < k < |s| ensures Alias(s[j].target, s[j].index) != Alias(s[k].target, s[k].index) {
      AliasDeterminesIndex(s[j].target, s[j].index, s[k].target, s[k].index);
    }
  }

  /** A line break or a `*` occurs in a statement only when it occurs in the
      target. */
  lemma StatementAvoids(kw: Keyword, s: Survivor, isSass: bool, trailStatic: bool, c: char)
    requires c == '\n' || c == '*'
    requires Avoids(s.target, c)
    ensures Avoids(Statement(kw, s, isSass, trailStatic), c)
  {
    var front := "@" + KeywordText(kw) + " \"";
    var alias := if trailStatic then " as " + Alias(s.target, s.index) else "";
    var terminator := if isSass then "" else ";";
    assert c !in front by {
      assert c !in KeywordText(kw);
    }
    if trailStatic {
      AliasAvoids(s.target, s.index, c);
    }
    PartsAvoid(front, s.target, alias, terminator, c);
  }

  lemma AliasAvoids(target: string, index: nat, c: char)
    requires c == '\n' || c == '*'
    requires Avoids(target, c)
    ensures Avoids(Alias(target, index), c)
  {
    ParseNameAvoids(target, c);
    NatToStringAvoids(index, c);
  }

  lemma PartsAvoid(front: string, target: string, alias: string, terminator: string, c: char)
    requires c != '"' && c !in front && c !in target && c !in alias && c !in terminator
    ensures Avoids(front + target + "\"" + alias + terminator, c)
  {
  }

  /** A generated statement whose target has no `*` is not recognised again. */
  lemma GeneratedNotRecognised(kw: Keyword, s: Survivor, isSass: bool, trailStatic: bool)
    requires Avoids(s.target, '*')
    ensures MatchLine(Statement(kw, s, isSass, trailStatic)).None?
  {
    StatementAvoids(kw, s, isSass, trailStatic, '*');
    NoStarNotRecognised(Statement(kw, s, isSass, trailStatic));
  }

  /** A file globbed below the base is written as the path below the base, when that
      path has no `\` and does not start with `/`. */
  lemma TargetOfJoin(base: string, p: string)
    requires Avoids(p, '\\') && (p == [] || p[0] != '/')
    ensures ImportTarget(base, Join(base, p)) == p
  {
    RelativeOfJoin(base, p);
    assert ReplaceChar(p, '\\', '/') == p;
  }

  /** The target holds no character the file name does not, other than `/`. */
  lemma TargetAvoids(base: string, file: string, c: char)
    requires c != '/' && Avoids(file, c)
    ensures Avoids(ImportTarget(base, file), c)
  {
    var rel := Relative(base, file);
    forall i | 0 <= i < |rel| ensures rel[i] != c {
      var d := DirPrefix(base);
      if |d| <= |file| && file[..|d|] == d {
        assert rel[i] == file[|d| + i];
      }
    }
  }

  /** Every generated statement is a non-empty line. */
  lemma StatementsNonEmpty(kw: Keyword, survivors: seq<Survivor>, isSass: bool, trailStatic: bool)
    ensures forall j :: 0 <= j < |survivors| ==> Statements(kw, survivors, isSass, trailStatic)[j] != ""
  {
    StatementsAt(kw, survivors, isSass, trailStatic);
    forall j | 0 <= j < |survivors| ensures Statements(kw, survivors, isSass, trailStatic)[j] != "" {
      assert Statements(kw, survivors, isSass, trailStatic)[j][0] == '@';
    }
  }

  /** With non-empty statements, every piece of a block is a non-empty line. */
  lemma PiecesNonEmpty(m: ImportMatch, stmts: seq<string>)
    requires forall j :: 0 <= j < |stmts| ==> stmts[j] != ""
    ensures forall k :: 0 <= k < |Pieces(m, stmts)| ==> Pieces(m, stmts)[k] != ""
  {
    var front: seq<string> := if m.startComment != "" then [m.startComment] else [];
    var pieces := Pieces(m, stmts);
    forall k | 0 <= k < |pieces| ensures pieces[k] != "" {
      if |front| <= k < |front| + |stmts| {
        assert pieces[k] == stmts[k - |front|];
      }
    }
  }

  /** The block is empty, so that the recognised line vanishes, exactly when no entry
      survives and there are no comments. */
  lemma BlockEmpty(o: Oracles, ignorePaths: seq<string>, isSass: bool, m: ImportMatch,
    files: seq<string>, base: string)
    ensures ComposeBlock(o, ignorePaths, isSass, m, files, base) == "" <==>
      StatementsFor(o, ignorePaths, isSass, m, files, base) == [] && m.startComment == "" && m.endComment == ""
  {
    var survivors := Survivors(files, KeepUnder(o, ignorePaths, base), TargetUnder(base));
    var stmts := StatementsFor(o, ignorePaths, isSass, m, files, base);
    StatementsNonEmpty(m.keyword, survivors, isSass, IsGlobTrailStatic(m.pattern));
    PiecesNonEmpty(m, stmts);
    JoinEmpty(Pieces(m, stmts), '\n');
  }

  lemma StatementsAvoid(kw: Keyword, survivors: seq<Survivor>, isSass: bool, trailStatic: bool, c: char)
    requires c == '\n' || c == '*'
    requires forall j :: 0 <= j < |survivors| ==> Avoids(survivors[j].target, c)
    ensures forall j :: 0 <= j < |survivors| ==> Avoids(Statements(kw, survivors, isSass, trailStatic)[j], c)
  {
    StatementsAt(kw, survivors, isSass, trailStatic);
    forall j | 0 <= j < |survivors| ensures Avoids(Statements(kw, survivors, isSass, trailStatic)[j], c) {
      StatementAvoids(kw, survivors[j], isSass, trailStatic, c);
    }
  }

  lemma SurvivorTargetsAvoid(files: seq<string>, keep: string -> bool, base: string, c: char)
    requires c != '/' && forall k :: 0 <= k < |files| ==> Avoids(files[k], c)
    ensures forall j :: 0 <= j < |Survivors(files, keep, TargetUnder(base))| ==>
      Avoids(Survivors(files, keep, TargetUnder(base))[j].target, c)
  {
    var survivors := Survivors(files, keep, TargetUnder(base));
    SurvivorsSound(files, keep, TargetUnder(base));
    forall j | 0 <= j < |survivors| ensures Avoids(survivors[j].target, c) {
      var file := files[survivors[j].index];
      assert survivors[j].target == ImportTarget(base, file);
      TargetAvoids(base, file, c);
    }
  }

  /** No statement holds a line break when no file name does. */
  lemma StatementsAvoidNewline(o: Oracles, ignorePaths: seq<string>, isSass: bool, m: ImportMatch,
    files: seq<string>, base: string)
    requires forall k :: 0 <= k < |files| ==> Avoids(files[k], '\n')
    ensures var stmts := StatementsFor(o, ignorePaths, isSass, m, files, base);
      forall j :: 0 <= j < |stmts| ==> Avoids(stmts[j], '\n')
  {
    var keep := KeepUnder(o, ignorePaths, base);
    var survivors := Survivors(files, keep, TargetUnder(base));
    SurvivorTargetsAvoid(files, keep, base, '\n');
    StatementsAvoid(m.keyword, survivors, isSass, IsGlobTrailStatic(m.pattern), '\n');
  }

  lemma PiecesAvoid(m: ImportMatch, stmts: seq<string>, c: char)
    requires Avoids(m.startComment, c) && Avoids(m.endComment, c)
    requires forall j :: 0 <= j < |stmts| ==> Avoids(stmts[j], c)
    ensures forall k, i :: 0 <= k < |Pieces(m, stmts)| && 0 <= i < |Pieces(m, stmts)[k]| ==>
      Pieces(m, stmts)[k][i] != c
  {
    var front: seq<string> := if m.startComment != "" then [m.startComment] else [];
    var pieces := Pieces(m, stmts);
    forall k | 0 <= k < |pieces| ensures Avoids(pieces[k], c) {
      if |front| <= k < |front| + |stmts| {
        assert pieces[k] == stmts[k - |front|];
      }
    }
  }

  /** Each piece of the block, comments included, ends up on a line of its own. */
  lemma BlockLines(o: Oracles, ignorePaths: seq<string>, isSass: bool, m: ImportMatch,
    files: seq<string>, base: string)
    requires Avoids(m.startComment, '\n') && Avoids(m.endComment, '\n')
    requires forall k :: 0 <= k < |files| ==> Avoids(files[k], '\n')
    ensures var pieces := Pieces(m, StatementsFor(o, ignorePaths, isSass, m, files, base));
      pieces != [] ==> SplitOn(ComposeBlock(o, ignorePaths, isSass, m, files, base), {'\n'}) == pieces
  {
    var stmts := StatementsFor(o, ignorePaths, isSass, m, files, base);
    StatementsAvoidNewline(o, ignorePaths, isSass, m, files, base);
    PiecesAvoid(m, stmts, '\n');
    if Pieces(m, stmts) != [] {
      SplitOfJoin(Pieces(m, stmts), '\n');
    }
  }
}
