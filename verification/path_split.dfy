/** Python's `os.path.splitext` on POSIX: splits a path into a root and an
    extension at the last dot of its final component, where dots that lead
    the final component do not start an extension. */
module PathSplit {
  import opened Strings

  /** True when some character of s[lo..hi] is not a dot. */
  predicate HasNonDot(s: string, lo: int, hi: int)
    requires 0 <= lo <= hi <= |s|
  {
    exists k :: lo <= k < hi && s[k] != '.'
  }

  /** The final component of `p`: everything after its last slash. */
  function BaseName(p: string): (b: string)
    ensures '/' !in b
  {
    p[LastIndex(p, '/') + 1..]
  }

  /** A well-formed extension: empty, or a dot followed by characters that
      are neither dots nor slashes. */
  predicate IsExtension(e: string) {
    e == [] || (e[0] == '.' && '.' !in e[1..] && '/' !in e[1..])
  }

  /** `os.path.splitext(p)`: the root and the extension, which put back
      together give `p`. */
  function SplitExt(p: string): (r: (string, string))
    ensures r.0 + r.1 == p
    ensures IsExtension(r.1)
    ensures r.1 != [] ==> HasNonDot(BaseName(r.0), 0, |BaseName(r.0)|)
  {
    var sep := LastIndex(p, '/');
    var dot := LastIndex(p, '.');
    if sep < dot && HasNonDot(p, sep + 1, dot) then
      SplitFacts(p, sep, dot);
      (p[..dot], p[dot..])
    else
      (p, [])
  }

  /** What SplitExt needs to know about a split at `dot`. */
  lemma SplitFacts(p: string, sep: int, dot: int)
    requires sep == LastIndex(p, '/') && dot == LastIndex(p, '.')
    requires sep < dot && HasNonDot(p, sep + 1, dot)
    ensures p[..dot] + p[dot..] == p
    ensures IsExtension(p[dot..])
    ensures HasNonDot(BaseName(p[..dot]), 0, |BaseName(p[..dot])|)
  {
    var e := p[dot..];
    assert forall k :: 0 <= k < |e[1..]| ==> e[1..][k] == p[dot + 1 + k];
    assert '.' !in e[1..];
    assert '/' !in e[1..];
    var root := p[..dot];
    assert p == root + e;
    assert '/' !in e;
    LastIndexAppend(root, e, '/');
    assert BaseName(root) == p[sep + 1..dot];
    var k :| sep + 1 <= k < dot && p[k] != '.';
    assert BaseName(root)[k - sep - 1] == p[k];
  }

  /** Joining a root whose final component has a character other than a dot
      with an extension, then splitting, gives back the two parts. */
  lemma {:induction false} SplitExtJoin(root: string, ext: string)
    requires |ext| >= 1 && ext[0] == '.'
    requires '.' !in ext[1..] && '/' !in ext[1..]
    requires HasNonDot(BaseName(root), 0, |BaseName(root)|)
    ensures SplitExt(root + ext) == (root, ext)
  {
    var p := root + ext;
    var t := ext[1..];
    assert ext == ['.'] + t;
    assert p == root + ['.'] + t;
    LastIndexMarker(root, '.', t);
    assert '/' !in ext;
    LastIndexAppend(root, ext, '/');
    var sep := LastIndex(root, '/');
    var k :| 0 <= k < |BaseName(root)| && BaseName(root)[k] != '.';
    assert p[sep + 1 + k] == root[sep + 1 + k] == BaseName(root)[k];
    assert HasNonDot(p, sep + 1, |root|);
    assert p[..|root|] == root && p[|root|..] == ext;
  }

  /** A name without any dot has no extension. */
  lemma NoDotNoExtension(p: string)
    requires '.' !in p
    ensures SplitExt(p) == (p, [])
  {
  }

  /** Dots that lead the final component never start an extension: a
      dot-file such as `.lock` or `..x` is all root. */
  lemma {:induction false} LeadingDotsNoExtension(dir: string, dots: string, rest: string)
    requires |dots| >= 1 && forall i :: 0 <= i < |dots| ==> dots[i] == '.'
    requires '.' !in rest && '/' !in rest
    requires dir == [] || dir[|dir| - 1] == '/'
    ensures SplitExt(dir + dots + rest) == (dir + dots + rest, [])
  {
    var p := dir + dots + rest;
    var sep := LastIndex(p, '/');
    var dot := LastIndex(p, '.');
    assert p == dir + (dots + rest);
    assert '/' !in dots + rest;
    LastIndexAppend(dir, dots + rest, '/');
    LastIndexUnique(dir, '/', |dir| - 1);
    assert sep == |dir| - 1;
    var lastDot := dots[..|dots| - 1];
    assert p == (dir + lastDot) + ['.'] + rest;
    LastIndexMarker(dir + lastDot, '.', rest);
    assert dot == |dir| + |dots| - 1;
    assert !HasNonDot(p, sep + 1, dot) by {
      forall k | sep + 1 <= k < dot
        ensures p[k] == '.'
      {
        assert p[k] == dots[k - |dir|];
      }
    }
  }
}
