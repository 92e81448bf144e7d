/** The parts of `node:path` the rewriter uses, for POSIX paths and in a simplified
    form: `/` is the only separator, and `join` and `relative` do not normalise
    `.`/`..` segments or repeated separators. */
module Paths {
  import opened Text

  /** The index just past the last `/` of `p`, or 0 when `p` has none. */
  function SegmentStart(p: string): (k: nat)
    ensures k <= |p|
    ensures k > 0 ==> p[k - 1] == '/'
    ensures forall i :: k <= i < |p| ==> p[i] != '/'
    decreases |p|
  {
    if p == [] then 0
    else if p[|p| - 1] == '/' then |p|
    else SegmentStart(p[..|p| - 1])
  }

  /** The text after the last `/`: `p.split("/").at(-1)`, and `path.basename(p)` for a
      path that does not end in a separator. */
  function Basename(p: string): string
  {
    p[SegmentStart(p)..]
  }

  /** `path.dirname(p)`: everything before the last `/`; `/` for a file at the root;
      `.` for a bare name. */
  function Dirname(p: string): string
  {
    var k := SegmentStart(p);
    if k == 0 then "." else if k == 1 then "/" else p[..k - 1]
  }

  /** The text `path.join` puts in front of a relative path below `base`. */
  function DirPrefix(base: string): string
  {
    if base == "" || base == "." then ""
    else if base[|base| - 1] == '/' then base
    else base + "/"
  }

  /** `path.join(base, p)`. */
  function Join(base: string, p: string): string
  {
    DirPrefix(base) + p
  }

  /** `path.relative(base, p)` for a `p` below `base`; any other `p` is returned as it
      is (the `../` forms are not modelled). */
  function Relative(base: string, p: string): string
  {
    var d := DirPrefix(base);
    if |d| <= |p| && p[..|d|] == d then p[|d|..] else p
  }

  /** The index of the last occurrence of `c` in `s`. */
  function LastIndexOf(s: string, c: char): (r: Option<nat>)
    ensures r.Some? ==> r.value < |s| && s[r.value] == c
    ensures forall i :: 0 <= i < |s| && (r.None? || r.value < i) ==> s[i] != c
    decreases |s|
  {
    if s == [] then None
    else if s[|s| - 1] == c then Some(|s| - 1)
    else LastIndexOf(s[..|s| - 1], c)
  }

  /** `path.extname(p)`: the last segment from its last `.` on, or empty when that
      segment has no `.` or only a leading one. */
  function Extname(p: string): (ext: string)
    ensures ext == [] || (ext[0] == '.' && forall i :: 1 <= i < |ext| ==> ext[i] != '.' && ext[i] != '/')
    ensures |ext| < |Basename(p)| || ext == []
    ensures ext == Basename(p)[|Basename(p)| - |ext|..]
  {
    var seg := Basename(p);
    match LastIndexOf(seg, '.')
    case None => ""
    case Some(k) => if k == 0 then "" else seg[k..]
  }

  /** The last segment is the part after the last `/`, and the directory is what
      comes before that `/`. */
  lemma BasenameDirname(p: string)
    ensures forall i :: 0 <= i < |Basename(p)| ==> Basename(p)[i] != '/'
    ensures |Basename(p)| <= |p| && p[|p| - |Basename(p)|..] == Basename(p)
    ensures |Basename(p)| < |p| ==> p[|p| - |Basename(p)| - 1] == '/'
    ensures |Basename(p)| == |p| ==> Dirname(p) == "."
    ensures |Basename(p)| == |p| - 1 ==> Dirname(p) == "/"
    ensures |Basename(p)| < |p| - 1 ==> Dirname(p) + "/" + Basename(p) == p
  {
    var k := SegmentStart(p);
    if 1 < k {
      assert p[..k - 1] + "/" + p[k..] == p;
    }
  }

  /** The position after the last `/` is determined by its two defining facts. */
  lemma SegmentStartUnique(p: string, k: nat)
    requires k <= |p| && (k > 0 ==> p[k - 1] == '/')
    requires forall i :: k <= i < |p| ==> p[i] != '/'
    ensures SegmentStart(p) == k
  {
  }

  /** `p.split("/").at(-1)` is the last segment. */
  lemma {:induction false} LastPieceIsBasename(p: string)
    ensures var pieces := SplitOn(p, {'/'});
      pieces[|pieces| - 1] == Basename(p)
    decreases |p|
  {
    FirstPiece(p, {'/'});
    var e := |SplitOn(p, {'/'})[0]|;
    if e == |p| {
      SplitOnNoSep(p, {'/'});
      SegmentStartUnique(p, 0);
    } else {
      var q := p[e + 1..];
      SplitOnAt(p, e, {'/'});
      LastPieceIsBasename(q);
      var kq := SegmentStart(q);
      forall i | e + 1 + kq <= i < |p| ensures p[i] != '/' {
        assert p[i] == q[i - e - 1];
      }
      if kq > 0 {
        assert p[e + kq] == q[kq - 1];
      }
      SegmentStartUnique(p, e + 1 + kq);
      assert p[e + 1 + kq..] == q[kq..];
    }
  }

  /** The extension is non-empty exactly when the last segment has a `.` after its
      first character. */
  lemma ExtnameNonEmpty(p: string)
    ensures Extname(p) != [] <==> exists k :: 0 < k < |Basename(p)| && Basename(p)[k] == '.'
  {
    var seg := Basename(p);
    if LastIndexOf(seg, '.').Some? && LastIndexOf(seg, '.').value > 0 {
      assert seg[LastIndexOf(seg, '.').value] == '.';
    }
  }

  /** `path.parse(p).name`: the last segment without its extension. */
  function ParseName(p: string): (name: string)
    ensures name + Extname(p) == Basename(p)
  {
    var seg := Basename(p);
    seg[..|seg| - |Extname(p)|]
  }

  /** The way the plugin hook splits a module id into the importer's file name and
      directory gives the id back when joined, for an absolute id without empty
      segments. */
  lemma SplitIdRoundTrip(id: string)
    requires |id| > 0 && id[0] == '/'
    requires forall i :: 1 <= i < |id| ==> !(id[i - 1] == '/' && id[i] == '/')
    ensures Join(Dirname(id), Basename(id)) == id
  {
    var k := SegmentStart(id);
    assert k > 0;
    if k > 1 {
      assert id[k - 2] != '/';
      assert id[..k - 1] + "/" == id[..k];
    }
  }

  /** A path globbed below `base` is given back relative to `base`. */
  lemma RelativeOfJoin(base: string, p: string)
    ensures Relative(base, Join(base, p)) == p
  {
    assert (DirPrefix(base) + p)[..|DirPrefix(base)|] == DirPrefix(base);
  }

  /** The name without extension is a piece of the last segment, so it holds no
      character the path does not. */
  lemma ParseNameAvoids(p: string, c: char)
    requires Avoids(p, c)
    ensures Avoids(ParseName(p), c)
  {
    var name := ParseName(p);
    var k := SegmentStart(p);
    forall i | 0 <= i < |name| ensures name[i] != c {
      assert name[i] == (name + Extname(p))[i] == p[k..][i];
    }
  }
}
