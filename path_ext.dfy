/**
 The POSIX flavour of Node's `path.extname`: the extension of the last
 segment of a path, from its last `.` to its end. Trailing `/` separators are
 ignored; a segment without a dot, a segment whose only dot is its first
 character (`.bashrc`) and the segment `..` have no extension.
 */
module PathExt {
  import opened Wrappers

  /** p without the `/` separators at its end. */
  function TrimTrailingSlashes(p: string): (r: string)
    ensures r <= p
    ensures r == [] || r[|r| - 1] != '/'
    ensures forall k :: |r| <= k < |p| ==> p[k] == '/'
    decreases |p|
  {
    if p != [] && p[|p| - 1] == '/' then TrimTrailingSlashes(p[..|p| - 1]) else p
  }

  /** The position of the last c in s. */
  function LastIndexOf(s: string, c: char): (r: Option<nat>)
    ensures r.None? <==> c !in s
    ensures r.Some? ==> r.value < |s| && s[r.value] == c && c !in s[r.value + 1..]
    decreases |s|
  {
    if s == [] then None
    else if s[|s| - 1] == c then Some(|s| - 1)
    else LastIndexOf(s[..|s| - 1], c)
  }

  /** An occurrence of c with none after it is the one LastIndexOf finds. */
  lemma {:induction false} LastIndexOfAt(s: string, c: char, k: nat)
    requires k < |s| && s[k] == c && c !in s[k + 1..]
    ensures LastIndexOf(s, c) == Some(k)
    decreases |s|
  {
    if k < |s| - 1 {
      assert s[|s| - 1] == s[k + 1..][|s| - k - 2];
      assert s[..|s| - 1][k + 1..] == s[k + 1..][..|s| - k - 2];
      LastIndexOfAt(s[..|s| - 1], c, k);
    }
  }

  /** The text after the last `/` of t, or all of t when it has no `/`. */
  function AfterLastSlash(t: string): string {
    match LastIndexOf(t, '/')
    case None => t
    case Some(k) => t[k + 1..]
  }

  /** The text after the last `/` holds none, ends t, and starts t or follows a `/`. */
  lemma AfterLastSlashSpec(t: string)
    ensures var seg := AfterLastSlash(t);
      && '/' !in seg
      && |seg| <= |t| && t[|t| - |seg|..] == seg
      && (|seg| == |t| || t[|t| - |seg| - 1] == '/')
  {
    match LastIndexOf(t, '/')
    case None =>
    case Some(k) =>
      assert t[|t| - |t[k + 1..]| - 1] == t[k];
  }

  /** The last segment of p: what follows its last `/` once trailing separators are ignored. */
  function LastSegment(p: string): string {
    AfterLastSlash(TrimTrailingSlashes(p))
  }

  /** The segment has a dot, and its only dot is its first character. */
  predicate HasOnlyLeadingDot(seg: string) {
    |seg| > 0 && seg[0] == '.' && '.' !in seg[1..]
  }

  /** The extension of one segment: from its last dot on, unless that dot leads it or it is `..`. */
  function SegmentExtName(seg: string): (e: string)
    ensures e == [] || (e[0] == '.' && '.' !in e[1..])
    ensures |e| <= |seg| && seg[|seg| - |e|..] == e
  {
    match LastIndexOf(seg, '.')
    case None => ""
    case Some(d) => if d == 0 || seg == ".." then "" else seg[d..]
  }

  /** `path.extname(p)`: the extension of the last segment. */
  function ExtName(p: string): string {
    SegmentExtName(LastSegment(p))
  }

  /**
   A segment has no extension exactly when it has no dot, has only a leading
   dot, or is `..`.
   */
  lemma SegmentExtNameEmpty(seg: string)
    ensures SegmentExtName(seg) == [] <==> ('.' !in seg || HasOnlyLeadingDot(seg) || seg == "..")
  {
    var d := LastIndexOf(seg, '.');
    if d.Some? && d.value > 0 && seg != ".." {
      assert seg[0] != '.' || '.' in seg[1..] by {
        if seg[0] == '.' {
          assert seg[1..][d.value - 1] == '.';
        }
      }
    }
  }

  /**
   A segment's extension is empty or a lone dot exactly when the segment has
   no dot, has only a leading dot, or ends with a dot.
   */
  lemma SegmentExtNameWithoutText(seg: string)
    ensures |SegmentExtName(seg)| <= 1 <==> ('.' !in seg || HasOnlyLeadingDot(seg) || seg[|seg| - 1] == '.')
  {
    var e := SegmentExtName(seg);
    SegmentExtNameEmpty(seg);
    if |e| > 1 {
      assert seg[|seg| - 1] == e[1..][|e| - 2] != '.';
    }
  }

  /** A path without `/` is its own last segment. */
  lemma LastSegmentWithoutSlash(p: string)
    requires '/' !in p
    ensures LastSegment(p) == p
  {
    assert p == [] || p[|p| - 1] != '/';
    assert TrimTrailingSlashes(p) == p;
  }

  lemma DotJoinFacts(base: string, ext: string)
    requires base != [] && '.' !in base && '/' !in base
    requires '.' !in ext && '/' !in ext
    ensures var name := base + "." + ext;
      && '/' !in name && name != ".."
      && name[|base|] == '.' && '.' !in name[|base| + 1..]
      && name[|base|..] == "." + ext
  {
    var name := base + "." + ext;
    assert name[|base| + 1..] == ext;
    assert name[0] == base[0] != '.';
  }

  /** `base.ext`, without separators and with no other dot, has the extension `.ext`. */
  lemma ExtNameOfBaseAndExt(base: string, ext: string)
    requires base != [] && '.' !in base && '/' !in base
    requires '.' !in ext && '/' !in ext
    ensures ExtName(base + "." + ext) == "." + ext
  {
    var name := base + "." + ext;
    assert LastSegment(name) == name by {
      DotJoinFacts(base, ext);
      LastSegmentWithoutSlash(name);
    }
    assert SegmentExtName(name) == name[|base|..] by {
      DotJoinFacts(base, ext);
      LastIndexOfAt(name, '.', |base|);
    }
    DotJoinFacts(base, ext);
  }
}
