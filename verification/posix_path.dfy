/**
 * The few pieces of Python's `os.path` (POSIX flavour) and `str` that the
 * scripts rely on to name files: `str.rfind`, `os.path.basename`,
 * `os.path.join` with one component, and the root part of
 * `os.path.splitext`.
 */
module PosixPath {

  const Sep: char := '/'
  const ExtSep: char := '.'

  /** `s.rfind(ch)`: the index of the last occurrence of `ch`, or -1. */
  function RFind(s: string, ch: char): (i: int)
    ensures -1 <= i < |s|
    ensures i >= 0 ==> s[i] == ch
    ensures forall j :: i < j < |s| ==> s[j] != ch
    decreases |s|
  {
    if s == [] then -1
    else if s[|s| - 1] == ch then |s| - 1
    else RFind(s[..|s| - 1], ch)
  }

  predicate IsSuffix(suffix: string, s: string) {
    |suffix| <= |s| && s[|s| - |suffix|..] == suffix
  }

  predicate EndsWith(s: string, suffix: string) {
    IsSuffix(suffix, s)
  }

  /**
   * `os.path.basename(p)`: everything after the last separator. The result
   * holds no separator, ends `p`, and is the longest such suffix: what
   * precedes it in `p` is empty or ends in a separator.
   */
  function Basename(p: string): (name: string)
    ensures Sep !in name
    ensures IsSuffix(name, p)
    ensures |name| == |p| || p[|p| - |name| - 1] == Sep
  {
    p[RFind(p, Sep) + 1..]
  }

  /**
   * `os.path.join(a, b)` for a single component `b`: an absolute `b`
   * replaces `a`; otherwise `b` is appended, after a separator unless `a` is
   * empty or already ends in one.
   */
  function Join(a: string, b: string): (p: string)
    ensures IsSuffix(b, p)
    ensures |b| > 0 && b[0] == Sep ==> p == b
    ensures (|b| == 0 || b[0] != Sep) && (a == [] || a[|a| - 1] == Sep) ==> p == a + b
    ensures |b| > 0 && b[0] != Sep && a != [] && a[|a| - 1] != Sep ==> p == a + [Sep] + b
  {
    if |b| > 0 && b[0] == Sep then b
    else if a == [] || a[|a| - 1] == Sep then a + b
    else a + [Sep] + b
  }

  /** A listing entry: a non-empty name without a separator. */
  predicate PlainName(name: string) {
    name != [] && Sep !in name
  }

  /** The base name of a joined path is the plain name that was joined on. */
  lemma BasenameOfJoin(folder: string, name: string)
    requires PlainName(name)
    ensures Basename(Join(folder, name)) == name
  {
    var p := Join(folder, name);
    var i := RFind(p, Sep);
    assert p[|p| - |name|..] == name;
    assert forall j :: |p| - |name| <= j < |p| ==> p[j] == name[j - (|p| - |name|)] && p[j] in name;
    assert |p| == |name| || p[|p| - |name| - 1] == Sep;
    assert i == |p| - |name| - 1;
  }

  /** Some character of `s` is not an extension separator. */
  predicate HasNonDot(s: string) {
    exists k :: 0 <= k < |s| && s[k] != ExtSep
  }

  /**
   * `os.path.splitext(p)[0]`: `p` without its last extension. The extension
   * starts at the last dot of the last path component, unless everything
   * in that component before the dot is dots (a leading-dot name such as
   * ".profile" has no extension).
   */
  function SplitextRoot(p: string): (root: string)
    ensures |root| <= |p| && p[..|root|] == root
    ensures root == p || (p[|root|] == ExtSep && ExtSep !in p[|root| + 1..] && Sep !in p[|root| + 1..])
    ensures Sep !in p ==> (root != p <==> ExtSep in p && HasNonDot(p[..RFind(p, ExtSep)]))
  {
    var sepIndex := RFind(p, Sep);
    var dotIndex := RFind(p, ExtSep);
    assert dotIndex == -1 ==> ExtSep !in p by {
      assert forall j :: 0 <= j < |p| ==> p[j] in p;
    }
    assert Sep !in p ==> sepIndex == -1;
    if dotIndex > sepIndex && HasNonDot(p[sepIndex + 1..dotIndex]) then
      assert forall j :: dotIndex < j < |p| ==> p[j] != Sep && p[j] != ExtSep;
      p[..dotIndex]
    else
      p
  }

  /** A name with no dot has no extension. */
  lemma SplitextRootNoDot(p: string)
    requires ExtSep !in p
    ensures SplitextRoot(p) == p
  {
    assert forall j :: 0 <= j < |p| ==> p[j] in p;
  }

  /**
   * The last dot of a name whose part before it holds a non-dot character
   * starts the extension: `stem.ext` splits into `stem` and `.ext`.
   */
  lemma SplitextRootExtension(stem: string, ext: string)
    requires Sep !in stem && Sep !in ext && ExtSep !in ext
    requires HasNonDot(stem)
    ensures SplitextRoot(stem + [ExtSep] + ext) == stem
  {
    var p := stem + [ExtSep] + ext;
    var d := RFind(p, ExtSep);
    var s := RFind(p, Sep);
    assert p[|stem|] == ExtSep;
    assert forall j :: 0 <= j < |stem| ==> p[j] == stem[j] && p[j] in stem;
    assert forall j :: |stem| < j < |p| ==> p[j] == ext[j - |stem| - 1] && p[j] in ext;
    assert d == |stem|;
    assert p[s + 1..d] == stem;
  }

  /**
   * A name made of leading dots and then no further dot has no extension:
   * ".profile" and "....jpg" are their own roots.
   */
  lemma SplitextRootLeadingDots(dots: string, rest: string)
    requires |dots| > 0 && forall k :: 0 <= k < |dots| ==> dots[k] == ExtSep
    requires Sep !in rest && ExtSep !in rest
    ensures SplitextRoot(dots + rest) == dots + rest
  {
    var p := dots + rest;
    assert forall j :: 0 <= j < |p| ==> p[j] == if j < |dots| then ExtSep else rest[j - |dots|];
    assert Sep !in p by {
      forall j | 0 <= j < |p| ensures p[j] != Sep {
        if j >= |dots| {
          assert p[j] in rest;
        }
      }
    }
    var d := RFind(p, ExtSep);
    assert d == |dots| - 1 by {
      assert p[|dots| - 1] == ExtSep;
      forall j | |dots| <= j < |p| ensures p[j] != ExtSep {
        assert p[j] in rest;
      }
    }
    assert !HasNonDot(p[..d]);
  }
}
