// Recognition of glob `@import`/`@use` statements: the multi-line regular expression
// of the plugin, applied line by line.
//
// A line is recognised when it reads, in order:
//   start comment   blanks (space or tab), optionally followed by `/*` and anything
//   `@import` or `@use`
//   spacing         one or more white-space characters
//   quote           `"` or `'`
//   pattern         characters other than quotes, with a `*` after the first one
//   quote           `"` or `'` (not necessarily the same)
//   `;`             optional
//   end comment     blanks, optionally followed by `//` or `/*` and anything
// Where the start comment could end at several places, the regular expression's
// greedy `.*` makes it end at the last place from which the rest still matches.
module ImportRule {
  import opened Text

  datatype Keyword = Import | Use

  function KeywordText(k: Keyword): string
  {
    match k
    case Import => "import"
    case Use => "use"
  }

  /** A recognised statement: the whole line (`rule`) and the captured parts. */
  datatype ImportMatch = ImportMatch(
    rule: string,
    startComment: string,
    keyword: Keyword,
    spacing: string,
    openQuote: char,
    pattern: string,
    closeQuote: char,
    terminated: bool,
    endComment: string)

  predicate IsBlank(c: char)
  {
    c == ' ' || c == '\t'
  }

  /** The `\s` class of JavaScript regular expressions. */
  predicate IsRegexSpace(c: char)
  {
    || c == ' ' || c == '\t' || c == '\n' || c == '\r' || c == '\U{B}' || c == '\U{C}'
    || c == '\U{A0}' || c == '\U{1680}' || ('\U{2000}' <= c <= '\U{200A}')
    || c == '\U{2028}' || c == '\U{2029}' || c == '\U{202F}' || c == '\U{205F}'
    || c == '\U{3000}' || c == '\U{FEFF}'
  }

  /** The characters at which `^` and `$` match in multi-line mode. */
  predicate IsTerminator(c: char)
  {
    c == '\n' || c == '\r' || c == '\U{2028}' || c == '\U{2029}'
  }

  const Terminators: set<char> := {'\n', '\r', '\U{2028}', '\U{2029}'}

  predicate IsQuote(c: char)
  {
    c == '"' || c == '\''
  }

  /** The character classes the regular expression repeats. */
  datatype CharClass = Blank | Space | NonQuote | NonTerminator

  predicate InClass(c: char, k: CharClass)
  {
    match k
    case Blank => IsBlank(c)
    case Space => IsRegexSpace(c)
    case NonQuote => !IsQuote(c)
    case NonTerminator => !IsTerminator(c)
  }

  /** The number of characters from index `i` on that belong to class `k`, up to the
      first that does not: what a greedy `[...]*` consumes. */
  function Span(s: string, i: nat, k: CharClass): (n: nat)
    requires i <= |s|
    ensures i + n <= |s|
    decreases |s| - i
  {
    if i < |s| && InClass(s[i], k) then 1 + Span(s, i + 1, k) else 0
  }

  /** The span covers characters of the class only, and stops at the end or at a
      character outside the class. */
  lemma {:induction false} SpanFacts(s: string, i: nat, k: CharClass)
    requires i <= |s|
    ensures forall j :: i <= j < i + Span(s, i, k) ==> InClass(s[j], k)
    ensures i + Span(s, i, k) < |s| ==> !InClass(s[i + Span(s, i, k)], k)
    decreases |s| - i
  {
    if i < |s| && InClass(s[i], k) {
      SpanFacts(s, i + 1, k);
    }
  }

  /** The two conditions in Span's contract determine the span. */
  lemma {:induction false} SpanUnique(s: string, i: nat, k: CharClass, n: nat)
    requires i + n <= |s|
    requires forall j :: i <= j < i + n ==> InClass(s[j], k)
    requires i + n < |s| ==> !InClass(s[i + n], k)
    ensures Span(s, i, k) == n
    decreases n
  {
    if n > 0 {
      SpanUnique(s, i + 1, k, n - 1);
    }
  }

  predicate StartsWith(s: string, prefix: string)
  {
    |prefix| <= |s| && s[..|prefix|] == prefix
  }

  // `[ \t]*(?:\/\*.*)?`: blanks, then optionally a comment opener and anything.
  predicate StartCommentShape(sc: string)
  {
    var w := Span(sc, 0, Blank);
    w == |sc| || (w + 2 <= |sc| && sc[w] == '/' && sc[w + 1] == '*')
  }

  // `[ \t]*(?:\/[/*].*)?`: blanks, then optionally a comment opener of either kind
  // and anything.
  predicate EndCommentShape(ec: string)
  {
    var w := Span(ec, 0, Blank);
    w == |ec| || (w + 2 <= |ec| && ec[w] == '/' && (ec[w + 1] == '/' || ec[w + 1] == '*'))
  }

  /** A `*` somewhere after the first character. */
  predicate StarAfterFirst(p: string)
  {
    exists i :: 1 <= i < |p| && p[i] == '*'
  }

  /** `[^"']+\*[^"']*`: no quotes, and a `*` somewhere after the first character. */
  predicate PatternShape(p: string)
  {
    && (forall i :: 0 <= i < |p| ==> !IsQuote(p[i]))
    && StarAfterFirst(p)
  }

  /** The parts of a recognised statement have the shapes the regular expression
      allows. */
  predicate WellFormed(m: ImportMatch)
  {
    && StartCommentShape(m.startComment)
    && |m.spacing| >= 1 && (forall i :: 0 <= i < |m.spacing| ==> IsRegexSpace(m.spacing[i]))
    && IsQuote(m.openQuote) && IsQuote(m.closeQuote)
    && PatternShape(m.pattern)
    && EndCommentShape(m.endComment)
  }

  /** The text the captured parts spell out. */
  function Spelling(m: ImportMatch): string
  {
    m.startComment + StatementSpelling(m)
  }

  /** The text from `@` on. */
  function StatementSpelling(m: ImportMatch): string
  {
    "@" + KeywordText(m.keyword) + m.spacing + [m.openQuote] + m.pattern
      + [m.closeQuote] + (if m.terminated then ";" else "") + m.endComment
  }

  /** The regular expression from `@` to the end of the line, applied to `r`. */
  function MatchTail(r: string): (t: Option<ImportMatch>)
    ensures t.Some? ==> t.value.rule == r && t.value.startComment == ""
  {
    match KeywordOf(r)
    case None => None
    case Some(kw) => MatchAfterKeyword(r, kw)
  }

  /** The keyword `r` starts with, after its `@`. */
  function KeywordOf(r: string): (k: Option<Keyword>)
    ensures k.Some? ==> StartsWith(r, "@" + KeywordText(k.value))
    ensures StartsWith(r, "@import") ==> k == Some(Import)
    ensures StartsWith(r, "@use") ==> k == Some(Use)
  {
    assert |r| >= 7 ==> r[..7][1] == r[1];
    assert |r| >= 4 ==> r[..4][1] == r[1];
    if StartsWith(r, "@import") then Some(Import)
    else if StartsWith(r, "@use") then Some(Use)
    else None
  }

  /** Where the scan after the keyword stops: the opening quote `q1`, the closing
      quote `q2`, and the start `t` of the end comment. */
  datatype Marks = Marks(q1: nat, q2: nat, t: nat)

  /** The marks of a line the rest of the regular expression matches: white space
      (at least one character) up to a quote, non-quotes up to the next quote with a
      `*` after the first of them, an optional `;`, and an end comment reaching the
      end of `r`. */
  predicate MarksFit(r: string, kw: Keyword, mk: Marks)
  {
    var i := 1 + |KeywordText(kw)|;
    && i < mk.q1 < mk.q2 < |r| && mk.t <= |r|
    && (forall j :: i <= j < mk.q1 ==> IsRegexSpace(r[j]))
    && IsQuote(r[mk.q1])
    && (forall j :: mk.q1 < j < mk.q2 ==> !IsQuote(r[j]))
    && IsQuote(r[mk.q2])
    && CloseQuoteFits(r, mk.q1, mk)
  }

  /** The scan of the rest of the regular expression once `r` is known to start with
      `@` and `kw`: `\s+`, then the quoted pattern. */
  function ScanAfterKeyword(r: string, kw: Keyword): (k: Option<Marks>)
    requires 1 + |KeywordText(kw)| <= |r|
    ensures k.Some? ==> 1 + |KeywordText(kw)| <= k.value.q1 < k.value.q2 < |r| && k.value.t <= |r|
  {
    ScanFromSpaces(r, 1 + |KeywordText(kw)|)
  }

  /** From the end of the keyword on: at least one white-space character. */
  function ScanFromSpaces(r: string, i: nat): (k: Option<Marks>)
    requires i <= |r|
    ensures k.Some? ==> i <= k.value.q1 < k.value.q2 < |r| && k.value.t <= |r|
  {
    var ws := Span(r, i, Space);
    if ws == 0 then None else ScanFromQuote(r, i + ws)
  }

  /** From the opening quote on: the pattern runs up to the next quote. */
  function ScanFromQuote(r: string, q1: nat): (k: Option<Marks>)
    requires q1 <= |r|
    ensures k.Some? ==> k.value.q1 == q1 < k.value.q2 < |r| && k.value.t <= |r|
  {
    if q1 >= |r| || !IsQuote(r[q1]) then None
    else ScanFromCloseQuote(r, q1, q1 + 1 + Span(r, q1 + 1, NonQuote))
  }

  /** From the closing quote on: an optional `;` and the end comment. */
  function ScanFromCloseQuote(r: string, q1: nat, q2: nat): (k: Option<Marks>)
    requires q1 < q2 <= |r|
    ensures k.Some? ==> k.value.q1 == q1 && k.value.q2 == q2 < |r| && k.value.t <= |r|
  {
    if q2 >= |r| || !StarAfterFirst(r[q1 + 1..q2]) then None
    else
      var t := if q2 + 1 < |r| && r[q2 + 1] == ';' then q2 + 2 else q2 + 1;
      if !EndCommentShape(r[t..]) then None
      else Some(Marks(q1, q2, t))
  }

  /** The scan finds exactly the marks that fit: the regular expression's greedy
      repetitions leave no choice. */
  lemma ScanFinds(r: string, kw: Keyword, mk: Marks)
    requires 1 + |KeywordText(kw)| <= |r|
    ensures ScanAfterKeyword(r, kw) == Some(mk) <==> MarksFit(r, kw, mk)
  {
    if ScanAfterKeyword(r, kw) == Some(mk) {
      ScanSound(r, kw, mk);
    }
    if MarksFit(r, kw, mk) {
      ScanComplete(r, kw, mk);
    }
  }

  lemma ScanSound(r: string, kw: Keyword, mk: Marks)
    requires 1 + |KeywordText(kw)| <= |r| && ScanAfterKeyword(r, kw) == Some(mk)
    ensures MarksFit(r, kw, mk)
  {
    var i := 1 + |KeywordText(kw)|;
    SpanFacts(r, i, Space);
    FromQuoteSound(r, i + Span(r, i, Space), mk);
  }

  lemma FromQuoteSound(r: string, q1: nat, mk: Marks)
    requires q1 <= |r| && ScanFromQuote(r, q1) == Some(mk)
    ensures IsQuote(r[q1]) && IsQuote(r[mk.q2])
    ensures forall j :: q1 < j < mk.q2 ==> !IsQuote(r[j])
    ensures CloseQuoteFits(r, q1, mk)
  {
    SpanFacts(r, q1 + 1, NonQuote);
    assert !InClass(r[mk.q2], NonQuote);
  }

  /** What follows the pattern fits: a `*` after its first character, the optional
      `;`, and an end comment up to the end of `r`. */
  predicate CloseQuoteFits(r: string, q1: nat, mk: Marks)
  {
    && mk.q1 == q1 < mk.q2 < |r| && mk.t <= |r|
    && StarAfterFirst(r[q1 + 1..mk.q2])
    && mk.t == (if mk.q2 + 1 < |r| && r[mk.q2 + 1] == ';' then mk.q2 + 2 else mk.q2 + 1)
    && EndCommentShape(r[mk.t..])
  }

  lemma ScanComplete(r: string, kw: Keyword, mk: Marks)
    requires 1 + |KeywordText(kw)| <= |r| && MarksFit(r, kw, mk)
    ensures ScanAfterKeyword(r, kw) == Some(mk)
  {
    SpaceRun(r, 1 + |KeywordText(kw)|, mk.q1);
    SkipSpaces(r, 1 + |KeywordText(kw)|, mk.q1);
    FromQuoteComplete(r, mk);
  }

  /** After white space running from `i` up to `q1`, the scan goes on from `q1`. */
  lemma SkipSpaces(r: string, i: nat, q1: nat)
    requires i < q1 <= |r| && Span(r, i, Space) == q1 - i
    ensures ScanFromSpaces(r, i) == ScanFromQuote(r, q1)
  {
  }

  lemma FromQuoteComplete(r: string, mk: Marks)
    requires mk.q1 < mk.q2 < |r| && IsQuote(r[mk.q1]) && IsQuote(r[mk.q2])
    requires forall j :: mk.q1 < j < mk.q2 ==> !IsQuote(r[j])
    requires CloseQuoteFits(r, mk.q1, mk)
    ensures ScanFromQuote(r, mk.q1) == Some(mk)
  {
    NonQuoteRun(r, mk.q1 + 1, mk.q2);
    assert ScanFromCloseQuote(r, mk.q1, mk.q2) == Some(mk);
  }

  /** White space up to a quote is the whole of what `\s+` consumes. */
  lemma SpaceRun(r: string, i: nat, q1: nat)
    requires i <= q1 < |r| && IsQuote(r[q1])
    requires forall j :: i <= j < q1 ==> IsRegexSpace(r[j])
    ensures Span(r, i, Space) == q1 - i
  {
    assert !InClass(r[q1], Space);
    SpanUnique(r, i, Space, q1 - i);
  }

  /** Non-quotes up to a quote are the whole of what `[^"']*` consumes. */
  lemma NonQuoteRun(r: string, a: nat, q2: nat)
    requires a <= q2 < |r| && IsQuote(r[q2])
    requires forall j :: a <= j < q2 ==> !IsQuote(r[j])
    ensures Span(r, a, NonQuote) == q2 - a
  {
    SpanUnique(r, a, NonQuote, q2 - a);
  }

  /** The rest of the regular expression applied to `r`, with the parts cut at the
      marks the scan finds. */
  function MatchAfterKeyword(r: string, kw: Keyword): (t: Option<ImportMatch>)
    requires 1 + |KeywordText(kw)| <= |r|
    ensures t.Some? ==> t.value.rule == r && t.value.startComment == ""
  {
    match ScanAfterKeyword(r, kw)
    case None => None
    case Some(mk) => Some(Cut(r, kw, mk))
  }

  /** The parts of `r` between the marks: the white space after the keyword, the
      quotes, the pattern between them, whether a `;` follows, and the end comment. */
  function Cut(r: string, kw: Keyword, mk: Marks): ImportMatch
    requires 1 + |KeywordText(kw)| <= mk.q1 < mk.q2 < |r| && mk.t <= |r|
  {
    ImportMatch(r, "", kw, r[1 + |KeywordText(kw)|..mk.q1], r[mk.q1], r[mk.q1 + 1..mk.q2],
      r[mk.q2], mk.t == mk.q2 + 2, r[mk.t..])
  }

  /** The parts cut at fitting marks spell out the line again. */
  lemma CutSpelling(r: string, kw: Keyword, mk: Marks)
    requires StartsWith(r, "@" + KeywordText(kw)) && MarksFit(r, kw, mk)
    ensures Spelling(Cut(r, kw, mk)) == r
  {
    var i := 1 + |KeywordText(kw)|;
    SpellingOfParts(r, Cut(r, kw, mk), i, mk.q1, mk.q2, mk.t);
  }

  /** The parts cut at fitting marks have the shapes the regular expression allows. */
  lemma CutWellFormed(r: string, kw: Keyword, mk: Marks)
    requires MarksFit(r, kw, mk)
    ensures WellFormed(Cut(r, kw, mk))
  {
    var m := Cut(r, kw, mk);
    var i := 1 + |KeywordText(kw)|;
    forall j | 0 <= j < |m.pattern| ensures !IsQuote(m.pattern[j]) {
      assert m.pattern[j] == r[mk.q1 + 1 + j];
    }
    WellFormedOfParts(r, m, i, mk.q1);
  }

  /** Every line MatchTail accepts has the statement's shape and is spelled out by
      the captured parts. */
  lemma MatchTailSound(r: string)
    ensures MatchTail(r).Some? ==> Spelling(MatchTail(r).value) == r && WellFormed(MatchTail(r).value)
  {
    if MatchTail(r).Some? {
      TailSound(r, MatchTail(r).value);
    }
  }

  lemma TailSound(r: string, t: ImportMatch)
    requires MatchTail(r) == Some(t)
    ensures Spelling(t) == r && WellFormed(t)
  {
    var kw := KeywordOf(r).value;
    var mk := ScanAfterKeyword(r, kw).value;
    ScanFinds(r, kw, mk);
    CutSpelling(r, kw, mk);
    CutWellFormed(r, kw, mk);
  }

  lemma SpellingOfParts(r: string, m: ImportMatch, i: nat, q1: nat, q2: nat, t: nat)
    requires i <= q1 < q2 < t <= |r|
    requires m.startComment == "" && r[..i] == "@" + KeywordText(m.keyword)
    requires m.spacing == r[i..q1] && m.openQuote == r[q1] && m.pattern == r[q1 + 1..q2]
    requires m.closeQuote == r[q2] && m.endComment == r[t..]
    requires m.terminated ==> t == q2 + 2 && r[q2 + 1] == ';'
    requires !m.terminated ==> t == q2 + 1
    ensures Spelling(m) == r
  {
    assert r == r[..i] + r[i..q1] + [r[q1]] + r[q1 + 1..q2] + [r[q2]] + r[q2 + 1..t] + r[t..];
  }

  lemma WellFormedOfParts(r: string, m: ImportMatch, i: nat, q1: nat)
    requires i < q1 <= |r| && m.spacing == r[i..q1]
    requires forall j :: i <= j < q1 ==> IsRegexSpace(r[j])
    requires IsQuote(m.openQuote) && IsQuote(m.closeQuote)
    requires m.startComment == "" && PatternShape(m.pattern) && EndCommentShape(m.endComment)
    ensures WellFormed(m)
  {
    SpanUnique("", 0, Blank, 0);
    assert forall j :: 0 <= j < |m.spacing| ==> m.spacing[j] == r[i + j];
  }

  /** The rest of the regular expression matches `r`. */
  predicate TailMatches(r: string)
  {
    MatchTail(r).Some?
  }

  /** The last index `p` in `lo..hi` whose suffix `line[p..]` is accepted. */
  function LastAccepted(line: string, lo: nat, hi: nat, accepts: string -> bool): (r: Option<nat>)
    requires lo <= hi <= |line|
    ensures r.Some? ==> lo <= r.value <= hi && accepts(line[r.value..])
    decreases hi
  {
    if accepts(line[hi..]) then Some(hi)
    else if hi == lo then None
    else LastAccepted(line, lo, hi - 1, accepts)
  }

  /** No suffix starting after the index LastAccepted finds is accepted: the start
      comment found through it is as long as it can be. */
  lemma {:induction false} LastAcceptedIsLast(line: string, lo: nat, hi: nat, accepts: string -> bool)
    requires lo <= hi <= |line|
    ensures var r := LastAccepted(line, lo, hi, accepts);
      forall q :: lo <= q <= hi && (r.None? || r.value < q) ==> !accepts(line[q..])
    decreases hi
  {
    if !accepts(line[hi..]) && hi > lo {
      LastAcceptedIsLast(line, lo, hi - 1, accepts);
    }
  }

  /** Where the start comment ends, when the line is recognised at all: right after
      the leading blanks, or, when a comment opener follows them, at the last place
      from which the rest of the line matches. (Without an opener the rest can only
      start right after the blanks: the regular expression needs an `@` there.) */
  function StartCommentEnd(line: string): (p: Option<nat>)
    ensures p.Some? ==> p.value <= |line| && MatchTail(line[p.value..]).Some?
    ensures p.Some? ==> StartCommentShape(line[..p.value])
  {
    var p := SplitSearch(line, TailMatches);
    if p.Some? then
      BlankPrefixShape(line, Span(line, 0, Blank), p.value);
      p
    else None
  }

  /** The search for the end of the start comment, for any acceptance test of the
      rest: right after the leading blanks, or, behind a comment opener, the last
      accepted place. */
  function SplitSearch(line: string, accepts: string -> bool): (p: Option<nat>)
    ensures var w := Span(line, 0, Blank);
      p.Some? ==> (&& w <= p.value <= |line| && accepts(line[p.value..])
                   && (p.value == w || (w + 2 <= p.value && line[w] == '/' && line[w + 1] == '*')))
  {
    var w := Span(line, 0, Blank);
    if w + 2 <= |line| && line[w] == '/' && line[w + 1] == '*' then LastAccepted(line, w + 2, |line|, accepts)
    else LastAccepted(line, w, w, accepts)
  }

  lemma BlankPrefixShape(line: string, w: nat, p: nat)
    requires w == Span(line, 0, Blank) && w <= p <= |line|
    requires p == w || (w + 2 <= p && line[w] == '/' && line[w + 1] == '*')
    ensures StartCommentShape(line[..p])
  {
    SpanFacts(line, 0, Blank);
    SpanUnique(line[..p], 0, Blank, w);
  }

  /** The regular expression applied to one line (a text without line terminators). */
  function MatchLine(line: string): (r: Option<ImportMatch>)
    ensures r.Some? ==> r.value.rule == line
  {
    match StartCommentEnd(line)
    case None => None
    case Some(p) => Some(MatchTail(line[p..]).value.(rule := line, startComment := line[..p]))
  }

  /** A recognised line has the shape of the regular expression and is spelled out
      exactly by the captured parts; in particular its pattern contains a `*`. */
  lemma MatchLineSound(line: string)
    ensures MatchLine(line).Some? ==> Spelling(MatchLine(line).value) == line && WellFormed(MatchLine(line).value)
  {
    if StartCommentEnd(line).Some? {
      var p := StartCommentEnd(line).value;
      var t := MatchTail(line[p..]).value;
      var m := t.(rule := line, startComment := line[..p]);
      assert MatchLine(line) == Some(m);
      TailSound(line[p..], t);
      WithStartComment(t, line[..p], line);
      assert Spelling(m) == line by {
        assert line == line[..p] + line[p..];
      }
    }
  }

  lemma WithStartComment(t: ImportMatch, sc: string, line: string)
    requires WellFormed(t) && t.startComment == "" && StartCommentShape(sc)
    ensures var m := t.(rule := line, startComment := sc);
      WellFormed(m) && Spelling(m) == sc + Spelling(t)
  {
    var m := t.(rule := line, startComment := sc);
    assert StatementSpelling(m) == StatementSpelling(t);
  }

  /** Any text the start comment can match, followed by a text the rest of the
      regular expression matches, makes a recognised line whose start comment is at
      least that long: the greedy `.*` never stops short of a place from which the
      rest matches. */
  lemma MatchLineComplete(line: string, q: nat)
    requires q <= |line| && StartCommentShape(line[..q]) && TailMatches(line[q..])
    ensures MatchLine(line).Some? && q <= |MatchLine(line).value.startComment|
  {
    StartCommentEndIsLast(line, q);
  }

  /** StartCommentEnd finds a split whenever one exists, and no split ends later
      than the one it finds. */
  lemma StartCommentEndIsLast(line: string, q: nat)
    requires q <= |line| && StartCommentShape(line[..q]) && TailMatches(line[q..])
    ensures StartCommentEnd(line).Some? && q <= StartCommentEnd(line).value
  {
    AtSplit(line, q);
    SplitReaches(line, q, TailMatches);
  }

  lemma AtSplit(line: string, q: nat)
    requires q <= |line| && TailMatches(line[q..])
    ensures q < |line| && line[q] == '@'
  {
    TailStartsWithAt(line[q..]);
    assert line[q] == line[q..][0];
  }

  /** The search StartCommentEnd makes, for any acceptance test, reaches every
      split whose start comment has the right shape and whose rest is accepted and
      starts with `@`. */
  lemma SplitReaches(line: string, q: nat, accepts: string -> bool)
    requires q < |line| && line[q] == '@' && StartCommentShape(line[..q]) && accepts(line[q..])
    ensures SplitSearch(line, accepts).Some? && q <= SplitSearch(line, accepts).value
  {
    var w := Span(line, 0, Blank);
    BlanksBeforeAt(line, q);
    if w + 2 <= |line| && line[w] == '/' && line[w + 1] == '*' {
      LastAcceptedReaches(line, w + 2, |line|, accepts, q);
    } else {
      assert w == q;
    }
  }

  /** LastAccepted finds an index at least as large as any accepted one. */
  lemma LastAcceptedReaches(line: string, lo: nat, hi: nat, accepts: string -> bool, q: nat)
    requires lo <= q <= hi <= |line| && accepts(line[q..])
    ensures LastAccepted(line, lo, hi, accepts).Some? && q <= LastAccepted(line, lo, hi, accepts).value
  {
    LastAcceptedIsLast(line, lo, hi, accepts);
  }

  /** The rest of the regular expression starts with `@`. */
  lemma TailStartsWithAt(r: string)
    requires TailMatches(r)
    ensures |r| > 0 && r[0] == '@'
  {
    var kw := KeywordOf(r).value;
    assert r[..1 + |KeywordText(kw)|][0] == '@';
  }

  /** The blanks a start comment begins with are the blanks the line begins with,
      when an `@` follows the start comment. */
  lemma BlanksBeforeAt(line: string, q: nat)
    requires q < |line| && line[q] == '@' && StartCommentShape(line[..q])
    ensures var w := Span(line, 0, Blank);
      || w == q
      || (w + 2 <= q && line[w] == '/' && line[w + 1] == '*')
  {
    var sc := line[..q];
    var ws := Span(sc, 0, Blank);
    SpanFacts(sc, 0, Blank);
    forall j | 0 <= j < ws ensures InClass(line[j], Blank) {
      assert line[j] == sc[j];
    }
    if ws < q {
      assert line[ws] == sc[ws];
    }
    SpanUnique(line, 0, Blank, ws);
    if ws < q {
      assert line[ws + 1] == sc[ws + 1];
    }
  }

  /** An end comment never starts with `;`: the optional `;` before it is not
      ambiguous. */
  lemma EndCommentNotSemicolon(ec: string)
    requires EndCommentShape(ec) && |ec| > 0
    ensures ec[0] != ';'
  {
    SpanFacts(ec, 0, Blank);
  }

  /** The text a well-formed statement spells out from its `@` on is read back by the
      rest of the regular expression into the same parts. */
  lemma StatementRoundTrip(m: ImportMatch)
    requires WellFormed(m)
    ensures MatchTail(StatementSpelling(m)) == Some(m.(rule := StatementSpelling(m), startComment := ""))
  {
    var r := StatementSpelling(m);
    var kw := m.keyword;
    var q1 := 1 + |KeywordText(kw)| + |m.spacing|;
    var q2 := q1 + 1 + |m.pattern|;
    var mk := Marks(q1, q2, if m.terminated then q2 + 2 else q2 + 1);
    KeywordOfSpelling(m);
    StatementMarks(m, mk);
    ScanComplete(r, kw, mk);
    CutOfStatement(m, mk);
  }

  /** Cutting a spelled-out statement at its marks gives back its parts. */
  lemma CutOfStatement(m: ImportMatch, mk: Marks)
    requires WellFormed(m)
    requires var q1 := 1 + |KeywordText(m.keyword)| + |m.spacing|;
      var q2 := q1 + 1 + |m.pattern|;
      mk == Marks(q1, q2, if m.terminated then q2 + 2 else q2 + 1)
    ensures 1 + |KeywordText(m.keyword)| <= mk.q1 < mk.q2 < |StatementSpelling(m)|
    ensures mk.t <= |StatementSpelling(m)|
    ensures Cut(StatementSpelling(m), m.keyword, mk) == m.(rule := StatementSpelling(m), startComment := "")
  {
    StatementLayout(m);
  }

  /** The marks of a spelled-out statement fit. */
  lemma StatementMarks(m: ImportMatch, mk: Marks)
    requires WellFormed(m)
    requires var q1 := 1 + |KeywordText(m.keyword)| + |m.spacing|;
      var q2 := q1 + 1 + |m.pattern|;
      mk == Marks(q1, q2, if m.terminated then q2 + 2 else q2 + 1)
    ensures MarksFit(StatementSpelling(m), m.keyword, mk)
  {
    var r := StatementSpelling(m);
    var i := 1 + |KeywordText(m.keyword)|;
    StatementLayout(m);
    if !m.terminated && |m.endComment| > 0 {
      EndCommentNotSemicolon(m.endComment);
    }
    forall j | i <= j < mk.q1 ensures IsRegexSpace(r[j]) {
      assert r[j] == r[i..mk.q1][j - i];
    }
    forall j | mk.q1 < j < mk.q2 ensures !IsQuote(r[j]) {
      assert r[j] == r[mk.q1 + 1..mk.q2][j - mk.q1 - 1];
    }
  }

  /** The keyword a statement spells out is the one it is read back with. */
  lemma KeywordOfSpelling(m: ImportMatch)
    ensures KeywordOf(StatementSpelling(m)) == Some(m.keyword)
  {
    var r := StatementSpelling(m);
    var a := "@" + KeywordText(m.keyword);
    assert r == a + (r[|a|..]);
    if m.keyword == Import {
      assert r[..7] == "@import";
    } else {
      assert r[..4] == "@use";
    }
  }

  /** Where the parts of a statement lie in the text it spells out. */
  lemma StatementLayout(m: ImportMatch)
    ensures var r := StatementSpelling(m);
      var i := 1 + |KeywordText(m.keyword)|;
      var q1 := i + |m.spacing|;
      var q2 := q1 + 1 + |m.pattern|;
      var t := if m.terminated then q2 + 2 else q2 + 1;
      && |r| == t + |m.endComment|
      && r[..i] == "@" + KeywordText(m.keyword)
      && r[i..q1] == m.spacing && r[q1] == m.openQuote
      && r[q1 + 1..q2] == m.pattern && r[q2] == m.closeQuote
      && (m.terminated ==> r[q2 + 1] == ';')
      && (!m.terminated && |m.endComment| > 0 ==> r[q2 + 1] == m.endComment[0])
      && r[t..] == m.endComment
  {
    var i := 1 + |KeywordText(m.keyword)|;
    var a := "@" + KeywordText(m.keyword) + m.spacing + [m.openQuote];
    var b := m.pattern + [m.closeQuote] + (if m.terminated then ";" else "");
    assert StatementSpelling(m) == a + b + m.endComment;
  }

  /** Every well-formed statement is recognised when spelled out, with a start
      comment at least as long as its own. */
  lemma RecognisesWellFormed(m: ImportMatch)
    requires WellFormed(m)
    ensures MatchLine(Spelling(m)).Some?
    ensures |m.startComment| <= |MatchLine(Spelling(m)).value.startComment|
  {
    var line := Spelling(m);
    var q := |m.startComment|;
    StatementRoundTrip(m);
    assert line[..q] == m.startComment && line[q..] == StatementSpelling(m);
    MatchLineComplete(line, q);
  }

  /** A recognised line and where it lies in the text. */
  datatype Located = Located(m: ImportMatch, line: nat, offset: nat)

  /** The lines of `s` as `^` and `$` delimit them. */
  function Lines(s: string): seq<string>
  {
    SplitOn(s, Terminators)
  }

  /** The first line of `s` runs up to the first terminator. */
  lemma LinesUnfold(s: string, e: nat)
    requires e == Span(s, 0, NonTerminator)
    ensures e == |s| ==> Lines(s) == [s]
    ensures e < |s| ==> Lines(s) == [s[..e]] + Lines(s[e + 1..])
  {
    FirstLineEnd(s, e);
    if e == |s| {
      SplitOnNoSep(s, Terminators);
    } else {
      SplitOnAt(s, e, Terminators);
    }
  }

  /** The first line holds no terminator and ends at one or at the end of the text. */
  lemma FirstLineEnd(s: string, e: nat)
    requires e == Span(s, 0, NonTerminator)
    ensures forall i :: 0 <= i < e ==> s[i] !in Terminators
    ensures e < |s| ==> s[e] in Terminators
  {
    SpanFacts(s, 0, NonTerminator);
  }

  lemma OccursShift(s: string, e: nat, pat: string, k: nat)
    requires e <= |s| && OccursAt(s[e..], pat, k)
    ensures OccursAt(s, pat, k + e)
  {
    assert s[e..][k..k + |pat|] == s[e + k..e + k + |pat|];
  }

  /** The first line of `s` that `recognise` accepts, with its index among the lines
      and its offset in `s`. */
  function FirstLine(s: string, recognise: string -> Option<ImportMatch>): (r: Option<Located>)
    requires forall line :: recognise(line).Some? ==> recognise(line).value.rule == line
    ensures r.Some? ==> OccursAt(s, r.value.m.rule, r.value.offset)
    decreases |s|
  {
    var e := Span(s, 0, NonTerminator);
    match recognise(s[..e])
    case Some(m) =>
      assert OccursAt(s, m.rule, 0);
      Some(Located(m, 0, 0))
    case None =>
      if e == |s| then None
      else
        match FirstLine(s[e + 1..], recognise)
        case None => None
        case Some(l) =>
          OccursShift(s, e + 1, l.m.rule, l.offset);
          Some(Located(l.m, l.line + 1, l.offset + e + 1))
  }

  /** FirstLine finds the first accepted line, or reports that no line is accepted. */
  lemma FirstLineIsFirst(s: string, recognise: string -> Option<ImportMatch>)
    requires forall line :: recognise(line).Some? ==> recognise(line).value.rule == line
    ensures FirstLine(s, recognise).None? ==>
      forall k :: 0 <= k < |Lines(s)| ==> recognise(Lines(s)[k]).None?
    ensures FirstLine(s, recognise).Some? ==>
      var l := FirstLine(s, recognise).value;
      && l.line < |Lines(s)|
      && Lines(s)[l.line] == l.m.rule
      && recognise(l.m.rule) == Some(l.m)
      && (forall k :: 0 <= k < l.line ==> recognise(Lines(s)[k]).None?)
  {
    if FirstLine(s, recognise).None? {
      FirstLineNone(s, recognise);
    } else {
      FirstLineSome(s, recognise, FirstLine(s, recognise).value);
    }
  }

  lemma {:induction false} FirstLineNone(s: string, recognise: string -> Option<ImportMatch>)
    requires forall line :: recognise(line).Some? ==> recognise(line).value.rule == line
    requires FirstLine(s, recognise).None?
    ensures forall k :: 0 <= k < |Lines(s)| ==> recognise(Lines(s)[k]).None?
    decreases |s|
  {
    var e := Span(s, 0, NonTerminator);
    LinesUnfold(s, e);
    if e == |s| {
      assert s[..e] == Lines(s)[0];
    } else {
      var rest := s[e + 1..];
      FirstLineNone(rest, recognise);
      NoneShift(Lines(s), Lines(rest), s[..e], |Lines(rest)|, recognise);
    }
  }

  lemma {:induction false} FirstLineSome(s: string, recognise: string -> Option<ImportMatch>, l: Located)
    requires forall line :: recognise(line).Some? ==> recognise(line).value.rule == line
    requires FirstLine(s, recognise) == Some(l)
    ensures l.line < |Lines(s)| && Lines(s)[l.line] == l.m.rule
    ensures recognise(l.m.rule) == Some(l.m)
    ensures forall k :: 0 <= k < l.line ==> recognise(Lines(s)[k]).None?
    decreases |s|
  {
    var e := Span(s, 0, NonTerminator);
    LinesUnfold(s, e);
    assert Lines(s)[0] == s[..e];
    if recognise(s[..e]).None? {
      var rest := s[e + 1..];
      var l' := FirstLine(rest, recognise).value;
      FirstLineSome(rest, recognise, l');
      assert l == Located(l'.m, l'.line + 1, l'.offset + e + 1);
      NoneShift(Lines(s), Lines(rest), s[..e], l'.line, recognise);
    }
  }

  /** Where line `n` of a text split into `lines` begins: past the first `n` lines and
      the terminator after each. */
  function LineStart(lines: seq<string>, n: nat): nat
    requires n <= |lines|
  {
    if n == 0 then 0 else |lines[0]| + 1 + LineStart(lines[1..], n - 1)
  }

  /** The offset FirstLine reports is where the found line begins. */
  lemma {:induction false} FirstLineOffset(s: string, recognise: string -> Option<ImportMatch>, l: Located)
    requires forall line :: recognise(line).Some? ==> recognise(line).value.rule == line
    requires FirstLine(s, recognise) == Some(l)
    ensures l.line < |Lines(s)| && l.offset == LineStart(Lines(s), l.line)
    decreases |s|
  {
    FirstLineSome(s, recognise, l);
    var e := Span(s, 0, NonTerminator);
    LinesUnfold(s, e);
    assert Lines(s)[0] == s[..e];
    if recognise(s[..e]).None? {
      var rest := s[e + 1..];
      var l' := FirstLine(rest, recognise).value;
      FirstLineOffset(rest, recognise, l');
      assert l == Located(l'.m, l'.line + 1, l'.offset + e + 1);
      assert Lines(s)[1..] == Lines(rest);
    }
  }

  /** Putting a rejected line in front of lines of which the first `n` are rejected
      gives lines of which the first `n + 1` are rejected. */
  lemma NoneShift(lines: seq<string>, rest: seq<string>, first: string, n: nat,
      recognise: string -> Option<ImportMatch>)
    requires lines == [first] + rest && recognise(first).None? && n <= |rest|
    requires forall k :: 0 <= k < n ==> recognise(rest[k]).None?
    ensures forall k :: 0 <= k < n + 1 ==> recognise(lines[k]).None?
    ensures n < |rest| ==> lines[n + 1] == rest[n]
  {
    forall k | 0 < k < n + 1 ensures recognise(lines[k]).None? {
      assert lines[k] == rest[k - 1];
    }
  }

  /** The first recognised line of `s` (the first result of `matchAll`). */
  function FirstMatch(s: string): (r: Option<Located>)
    ensures r.Some? ==> OccursAt(s, r.value.m.rule, r.value.offset)
  {
    FirstLine(s, MatchLine)
  }

  /** FirstMatch finds the first recognised line, or reports that no line is
      recognised. */
  lemma FirstMatchIsFirst(s: string)
    ensures FirstMatch(s).None? ==> forall k :: 0 <= k < |Lines(s)| ==> MatchLine(Lines(s)[k]).None?
    ensures FirstMatch(s).Some? ==>
      var l := FirstMatch(s).value;
      && l.line < |Lines(s)|
      && Lines(s)[l.line] == l.m.rule
      && MatchLine(l.m.rule) == Some(l.m)
      && (forall k :: 0 <= k < l.line ==> MatchLine(Lines(s)[k]).None?)
  {
    FirstLineIsFirst(s, MatchLine);
  }

  /** The offset FirstMatch reports is where the recognised line begins in the text. */
  lemma FirstMatchOffset(s: string, l: Located)
    requires FirstMatch(s) == Some(l)
    ensures l.line < |Lines(s)| && l.offset == LineStart(Lines(s), l.line)
  {
    FirstLineOffset(s, MatchLine, l);
  }

  /** `@<keyword> "<pattern>"`, with a `;` when `terminated`. */
  function PlainStatement(kw: Keyword, pattern: string, terminated: bool): string
  {
    StatementSpelling(PlainMatch(kw, pattern, terminated))
  }

  /** The parts of a plain statement (its `rule` is not part of the spelling). */
  function PlainMatch(kw: Keyword, pattern: string, terminated: bool): ImportMatch
  {
    ImportMatch("", "", kw, " ", '"', pattern, '"', terminated, "")
  }

  /** A plain statement `@<keyword> "<pattern>"` with an optional `;` is recognised
      whenever its pattern has the required shape, with the pattern captured whole and
      no comments. */
  lemma RecognisesPlainStatement(kw: Keyword, pattern: string, terminated: bool)
    requires PatternShape(pattern)
    ensures var line := PlainStatement(kw, pattern, terminated);
      MatchLine(line) == Some(ImportMatch(line, "", kw, " ", '"', pattern, '"', terminated, ""))
  {
    PlainWellFormed(kw, pattern, terminated);
    RecognisesStatement(PlainMatch(kw, pattern, terminated));
  }

  /** A line the rest of the regular expression matches from its first character
      has an empty start comment. */
  lemma NoStartComment(line: string)
    requires TailMatches(line)
    ensures StartCommentEnd(line) == Some(0)
  {
    TailStartsWithAt(line);
    SpanUnique(line, 0, Blank, 0);
    assert line[0..] == line;
  }

  /** A well-formed statement without a start comment is recognised when spelled
      out, with exactly its own parts. */
  lemma RecognisesStatement(m: ImportMatch)
    requires WellFormed(m) && m.startComment == ""
    ensures MatchLine(StatementSpelling(m)) == Some(m.(rule := StatementSpelling(m)))
  {
    var line := StatementSpelling(m);
    StatementRoundTrip(m);
    NoStartComment(line);
    assert line[0..] == line && line[..0] == "";
  }

  /** A plain statement behind a blank and a block-comment opener is a valid end
      comment, and on a line of its own it is recognised. */
  lemma CommentedStatement(kw: Keyword, pattern: string, terminated: bool)
    requires PatternShape(pattern)
    ensures var ec := " /*" + PlainStatement(kw, pattern, terminated);
      EndCommentShape(ec) && MatchLine(ec).Some?
  {
    CommentedLayout(kw, pattern, terminated);
    MatchLineComplete(" /*" + PlainStatement(kw, pattern, terminated), 3);
  }

  lemma CommentedLayout(kw: Keyword, pattern: string, terminated: bool)
    requires PatternShape(pattern)
    ensures var ec := " /*" + PlainStatement(kw, pattern, terminated);
      && 3 <= |ec| && EndCommentShape(ec) && StartCommentShape(ec[..3]) && TailMatches(ec[3..])
  {
    PlainWellFormed(kw, pattern, terminated);
    StatementRoundTrip(PlainMatch(kw, pattern, terminated));
    BehindOpener(PlainStatement(kw, pattern, terminated));
  }

  /** A blank and a block-comment opener in front of any text make both comment
      shapes, and the opener is the whole start comment. */
  lemma BehindOpener(x: string)
    ensures var ec := " /*" + x;
      && EndCommentShape(ec) && StartCommentShape(ec[..3]) && ec[3..] == x
  {
    var ec := " /*" + x;
    SpanUnique(ec, 0, Blank, 1);
    SpanUnique(ec[..3], 0, Blank, 1);
  }

  lemma PlainWellFormed(kw: Keyword, pattern: string, terminated: bool)
    requires PatternShape(pattern)
    ensures WellFormed(PlainMatch(kw, pattern, terminated))
  {
    SpanUnique("", 0, Blank, 0);
  }

  // Rewriting is not idempotent: in `@use "a/*" /*@use "b/*"` the end comment is
  // ` /*@use "b/*"`, and once the block puts it on a line of its own, that comment
  // is recognised in turn. This holds for any two glob patterns `a` and `b`.
  lemma EndCommentRecognisedAgain(kw: Keyword, a: string, b: string)
    requires PatternShape(a) && PatternShape(b)
    ensures var ec := " /*" + PlainStatement(kw, b, false);
      var m := ImportMatch("", "", kw, " ", '"', a, '"', false, ec);
      var line := StatementSpelling(m);
      && MatchLine(line) == Some(m.(rule := line))
      && MatchLine(ec).Some?
  {
    var ec := " /*" + PlainStatement(kw, b, false);
    var m := ImportMatch("", "", kw, " ", '"', a, '"', false, ec);
    CommentedStatement(kw, b, false);
    CommentedWellFormed(m);
    RecognisesStatement(m);
  }

  lemma CommentedWellFormed(m: ImportMatch)
    requires m.startComment == "" && m.spacing == " " && m.openQuote == '"' && m.closeQuote == '"'
    requires PatternShape(m.pattern) && EndCommentShape(m.endComment)
    ensures WellFormed(m)
  {
    SpanUnique("", 0, Blank, 0);
  }

  /** The pattern sits in the spelled-out line, so its `*` does too. */
  lemma SpellingHasStar(m: ImportMatch)
    requires StarAfterFirst(m.pattern)
    ensures exists i :: 0 <= i < |Spelling(m)| && Spelling(m)[i] == '*'
  {
    var i :| 1 <= i < |m.pattern| && m.pattern[i] == '*';
    var front := m.startComment + "@" + KeywordText(m.keyword) + m.spacing + [m.openQuote];
    var back := [m.closeQuote] + (if m.terminated then ";" else "") + m.endComment;
    assert Spelling(m) == front + m.pattern + back;
    assert Spelling(m)[|front| + i] == '*';
  }

  /** A recognised line contains a `*`. */
  lemma RecognisedHasStar(line: string)
    ensures MatchLine(line).Some? ==> exists i :: 0 <= i < |line| && line[i] == '*'
  {
    MatchLineSound(line);
    if MatchLine(line).Some? {
      SpellingHasStar(MatchLine(line).value);
    }
  }

  /** A line without `*` is never recognised, and so passes through unchanged. */
  lemma NoStarNotRecognised(line: string)
    requires forall i :: 0 <= i < |line| ==> line[i] != '*'
    ensures MatchLine(line).None?
  {
    RecognisedHasStar(line);
  }
}
