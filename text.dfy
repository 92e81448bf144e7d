/** String operations standing in for the JavaScript string methods the rewriter
    relies on: `indexOf`, `replace` with a string pattern, `split`, `join`,
    case-insensitive regular-expression tests and number-to-string conversion. */
module Text {

  datatype Option<+T> = None | Some(value: T)

  /** `pat` occurs in `s` starting at index `k`. */
  predicate OccursAt(s: string, pat: string, k: nat)
  {
    k + |pat| <= |s| && s[k..k + |pat|] == pat
  }

  /** The first index at or after `from` where `pat` occurs. */
  function IndexFrom(s: string, pat: string, from: nat): (r: Option<nat>)
    requires from <= |s|
    ensures r.Some? ==> from <= r.value && OccursAt(s, pat, r.value)
    ensures forall k :: from <= k <= |s| && (r.None? || k < r.value) ==> !OccursAt(s, pat, k)
    decreases |s| - from
  {
    if OccursAt(s, pat, from) then Some(from)
    else if from == |s| then None
    else IndexFrom(s, pat, from + 1)
  }

  /** `s.indexOf(pat)`: the leftmost occurrence, or none. */
  function IndexOf(s: string, pat: string): (r: Option<nat>)
    ensures r.Some? ==> OccursAt(s, pat, r.value)
    ensures forall k :: 0 <= k <= |s| && (r.None? || k < r.value) ==> !OccursAt(s, pat, k)
  {
    IndexFrom(s, pat, 0)
  }

  /** `s.replace(pat, rep)` with a string pattern: only the leftmost occurrence is
      replaced, and the replacement is inserted literally. */
  function ReplaceFirst(s: string, pat: string, rep: string): string
  {
    match IndexOf(s, pat)
    case None => s
    case Some(k) => s[..k] + rep + s[k + |pat|..]
  }

  /** `replace` splices the replacement over the leftmost occurrence, which lies at
      or before any occurrence known. */
  lemma ReplaceFirstSplice(s: string, pat: string, rep: string, at: nat) returns (k: nat)
    requires OccursAt(s, pat, at)
    ensures k <= at && SplicedAt(s, pat, rep, k, ReplaceFirst(s, pat, rep))
  {
    k := IndexOf(s, pat).value;
  }

  /** `t` is `s` with `rep` spliced over the occurrence of `pat` at `k`, and that is
      the leftmost occurrence. */
  predicate SplicedAt(s: string, pat: string, rep: string, k: nat, t: string)
  {
    && OccursAt(s, pat, k)
    && (forall j :: 0 <= j < k ==> !OccursAt(s, pat, j))
    && t == s[..k] + rep + s[k + |pat|..]
  }

  function LowerChar(c: char): char
  {
    if 'A' <= c <= 'Z' then (c as int + 32) as char else c
  }

  function LowerAscii(s: string): (r: string)
    ensures |r| == |s|
  {
    seq(|s|, i requires 0 <= i < |s| => LowerChar(s[i]))
  }

  /** A test with a case-insensitive regular expression `/needle/i` for a lower-case
      ASCII `needle`. Without the `u` flag, case folding never maps a non-ASCII
      character onto an ASCII one, so ASCII folding is exact here. */
  predicate ContainsIgnoreCase(s: string, needle: string)
  {
    IndexOf(LowerAscii(s), needle).Some?
  }

  /** `s.replace(/from/g, to)` for a single character. */
  function ReplaceChar(s: string, from: char, to: char): string
  {
    seq(|s|, i requires 0 <= i < |s| => if s[i] == from then to else s[i])
  }

  /** Replacing every `from` by another character leaves no `from` behind and
      keeps every other character in place. */
  lemma ReplaceCharFacts(s: string, from: char, to: char)
    ensures |ReplaceChar(s, from, to)| == |s|
    ensures from != to ==> from !in ReplaceChar(s, from, to)
    ensures forall i :: 0 <= i < |s| && s[i] != from ==> ReplaceChar(s, from, to)[i] == s[i]
    ensures forall i :: 0 <= i < |s| && s[i] == from ==> ReplaceChar(s, from, to)[i] == to
  {
  }

  /** `s.split(sep)` for separators drawn from `seps`: the pieces between separators,
      including empty ones at either end. */
  function SplitOn(s: string, seps: set<char>): (parts: seq<string>)
    ensures |parts| >= 1
    decreases |s|
  {
    if s == [] then [""]
    else
      var rest := SplitOn(s[1..], seps);
      if s[0] in seps then [""] + rest else [[s[0]] + rest[0]] + rest[1..]
  }

  /** `parts.join(sep)`. */
  function JoinWith(parts: seq<string>, sep: char): string
  {
    if |parts| == 0 then ""
    else if |parts| == 1 then parts[0]
    else parts[0] + [sep] + JoinWith(parts[1..], sep)
  }

  function Count(s: string, c: char): nat
  {
    if s == [] then 0 else (if s[0] == c then 1 else 0) + Count(s[1..], c)
  }

  /** A string without separators is a single piece. */
  lemma {:induction false} SplitOnNoSep(a: string, seps: set<char>)
    requires forall i :: 0 <= i < |a| ==> a[i] !in seps
    ensures SplitOn(a, seps) == [a]
    decreases |a|
  {
    if a != [] {
      SplitOnNoSep(a[1..], seps);
      assert [a[0]] + a[1..] == a;
    }
  }

  /** Splitting at the first separator peels off the first piece. */
  lemma {:induction false} SplitOnAppend(a: string, c: char, b: string, seps: set<char>)
    requires forall i :: 0 <= i < |a| ==> a[i] !in seps
    requires c in seps
    ensures SplitOn(a + [c] + b, seps) == [a] + SplitOn(b, seps)
    decreases |a|
  {
    if a == [] {
      assert (a + [c] + b)[1..] == b;
    } else {
      SplitOnAppend(a[1..], c, b, seps);
      assert (a + [c] + b)[1..] == a[1..] + [c] + b;
      assert [a[0]] + a[1..] == a;
    }
  }

  /** Joining the pieces of a split restores the text. */
  lemma {:induction false} JoinOfSplit(s: string, sep: char)
    ensures JoinWith(SplitOn(s, {sep}), sep) == s
    decreases |s|
  {
    if s != [] {
      var rest := SplitOn(s[1..], {sep});
      JoinOfSplit(s[1..], sep);
      if s[0] == sep {
        assert SplitOn(s, {sep}) == [""] + rest;
        assert ([""] + rest)[1..] == rest;
      } else {
        var parts := [[s[0]] + rest[0]] + rest[1..];
        assert SplitOn(s, {sep}) == parts;
        if |rest| == 1 {
          assert parts == [[s[0]] + rest[0]];
        } else {
          assert parts[1..] == rest[1..];
          assert JoinWith(rest, sep) == rest[0] + [sep] + JoinWith(rest[1..], sep);
        }
      }
    }
  }

  /** Splitting at a first separator at index `e` peels off the text before it. */
  lemma {:induction false} SplitOnAt(s: string, e: nat, seps: set<char>)
    requires e < |s| && s[e] in seps
    requires forall i :: 0 <= i < e ==> s[i] !in seps
    ensures SplitOn(s, seps) == [s[..e]] + SplitOn(s[e + 1..], seps)
    decreases e
  {
    if e > 0 {
      SplitOnAt(s[1..], e - 1, seps);
      assert s[1..][e..] == s[e + 1..];
      assert [s[0]] + s[1..][..e - 1] == s[..e];
    }
  }

  /** Splitting a join of separator-free pieces gives the pieces back: each piece
      becomes one line of its own. */
  lemma {:induction false} SplitOfJoin(parts: seq<string>, sep: char)
    requires |parts| >= 1
    requires forall k, i :: 0 <= k < |parts| && 0 <= i < |parts[k]| ==> parts[k][i] != sep
    ensures SplitOn(JoinWith(parts, sep), {sep}) == parts
    decreases |parts|
  {
    if |parts| == 1 {
      SplitOnNoSep(parts[0], {sep});
    } else {
      SplitOfJoin(parts[1..], sep);
      SplitOnAppend(parts[0], sep, JoinWith(parts[1..], sep), {sep});
    }
  }

  /** The first piece of a split is the text up to the first separator. */
  lemma {:induction false} FirstPiece(s: string, seps: set<char>)
    ensures var f := SplitOn(s, seps)[0];
      && |f| <= |s| && f == s[..|f|]
      && (forall i :: 0 <= i < |f| ==> f[i] !in seps)
      && (|f| < |s| ==> s[|f|] in seps)
    decreases |s|
  {
    if s != [] {
      FirstPiece(s[1..], seps);
    }
  }

  /** `s.split("\n").length` is one more than the number of newlines in `s`. */
  lemma {:induction false} SplitCount(s: string, c: char)
    ensures |SplitOn(s, {c})| == Count(s, c) + 1
    decreases |s|
  {
    if s != [] {
      SplitCount(s[1..], c);
    }
  }

  /** `c` does not occur in `s`. */
  predicate Avoids(s: string, c: char)
  {
    c !in s
  }

  /** A non-empty piece makes the join non-empty. */
  lemma JoinEmpty(parts: seq<string>, sep: char)
    requires forall k :: 0 <= k < |parts| ==> parts[k] != ""
    ensures JoinWith(parts, sep) == "" <==> parts == []
  {
    if |parts| > 1 {
      assert JoinWith(parts, sep) == parts[0] + [sep] + JoinWith(parts[1..], sep);
    }
  }

  function DigitChar(d: nat): char
    requires d < 10
  {
    ('0' as int + d) as char
  }

  predicate IsDigit(c: char)
  {
    '0' <= c <= '9'
  }

  /** The decimal spelling of a non-negative integer, as a template literal prints it. */
  function NatToString(n: nat): (r: string)
    ensures |r| >= 1
    ensures forall i :: 0 <= i < |r| ==> IsDigit(r[i])
    decreases n
  {
    if n < 10 then [DigitChar(n)] else NatToString(n / 10) + [DigitChar(n % 10)]
  }

  /** A printed number has no leading zero: only 0 itself starts with `0`. */
  lemma {:induction false} NatToStringNoLeadingZero(n: nat)
    ensures |NatToString(n)| > 1 ==> NatToString(n)[0] != '0'
    ensures NatToString(n)[0] == '0' <==> n == 0
    decreases n
  {
    if n >= 10 {
      NatToStringNoLeadingZero(n / 10);
      assert NatToString(n)[0] == NatToString(n / 10)[0];
    }
  }

  /** A printed number holds digits only. */
  lemma NatToStringAvoids(n: nat, c: char)
    requires !IsDigit(c)
    ensures Avoids(NatToString(n), c)
  {
  }

  function DigitValue(c: char): nat
    requires IsDigit(c)
  {
    c as int - '0' as int
  }

  /** The value of a string of decimal digits. */
  function DecimalValue(s: string): nat
    requires forall i :: 0 <= i < |s| ==> IsDigit(s[i])
    decreases |s|
  {
    if s == [] then 0
    else DecimalValue(s[..|s| - 1]) * 10 + DigitValue(s[|s| - 1])
  }

  /** Reading back a printed number gives the number. */
  lemma {:induction false} DecimalRoundTrip(n: nat)
    ensures DecimalValue(NatToString(n)) == n
    decreases n
  {
    var r := NatToString(n);
    if n >= 10 {
      DecimalRoundTrip(n / 10);
      assert r[..|r| - 1] == NatToString(n / 10);
    }
  }

  /** Distinct numbers print differently. */
  lemma NatToStringInjective(a: nat, b: nat)
    requires NatToString(a) == NatToString(b)
    ensures a == b
  {
    DecimalRoundTrip(a);
    DecimalRoundTrip(b);
  }
}
