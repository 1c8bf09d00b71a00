/**
 POSIX `os.path.splitext`: split a path into a root and an extension. The
 extension starts at the last '.' of the last path component; a component
 made only of leading dots before that '.' (".png", "..png") has no
 extension.
 */
module Paths {
  import opened Strings

  /**
   `d` is where the extension of `p` starts: `p[d]` is the last '.' of the
   last path component, and some character of that component before `d` is
   neither '.' nor '/'.
   */
  ghost predicate ExtensionAt(p: string, d: int)
  {
    0 <= d < |p| && p[d] == '.' && CleanTail(p, d) && HasStem(p, d)
  }

  /** No '.' and no '/' after position `d`. */
  ghost predicate CleanTail(p: string, d: int)
  {
    forall j :: 0 <= j < |p| && d < j ==> p[j] != '.' && p[j] != '/'
  }

  /** Some character before `d`, in the same path component, is neither '.' nor '/'. */
  ghost predicate HasStem(p: string, d: int)
    requires d <= |p|
  {
    exists i :: 0 <= i < d && StemAt(p, i, d)
  }

  ghost predicate StemAt(p: string, i: int, d: int)
    requires 0 <= i < d <= |p|
  {
    p[i] != '.' && p[i] != '/' && forall j :: i < j < d ==> p[j] != '/'
  }

  predicate OnlyDots(s: string)
  {
    forall k :: 0 <= k < |s| ==> s[k] == '.'
  }

  /**
   `(root, ext)` with `root + ext == p`; `ext` is empty exactly when `p` has
   no extension, and otherwise begins at the unique position that
   `ExtensionAt` describes.
   */
  function SplitExt(p: string): (r: (string, string))
    ensures r.0 + r.1 == p
    ensures forall d :: ExtensionAt(p, d) <==> (r.1 != [] && d == |r.0|)
  {
    var dot := ExtensionStart(p);
    if dot >= 0 then (p[..dot], p[dot..]) else (p, [])
  }

  /**
   Where the extension of `p` starts, or -1 when it has none: the last '.',
   provided it comes after the last '/' and is preceded in that component by
   something other than dots.
   */
  function ExtensionStart(p: string): (d: int)
    ensures -1 <= d < |p|
    ensures forall e :: ExtensionAt(p, e) <==> e == d && d >= 0
  {
    var sep := LastIndexOf(p, '/');
    var dot := LastIndexOf(p, '.');
    if dot > sep && !OnlyDots(p[sep + 1..dot]) then
      SplitAtLastDot(p, sep, dot);
      dot
    else
      NoExtension(p, sep, dot);
      -1
  }

  /** When the last component has a non-dot character before its last '.', the extension starts there. */
  lemma SplitAtLastDot(p: string, sep: int, dot: int)
    requires sep == LastIndexOf(p, '/') && dot == LastIndexOf(p, '.')
    requires dot > sep && !OnlyDots(p[sep + 1..dot])
    ensures forall d :: ExtensionAt(p, d) <==> d == dot
  {
    forall d | ExtensionAt(p, d) ensures d == dot {
      ExtensionAtIsLastDot(p, d);
    }
    var k :| 0 <= k < dot - sep - 1 && p[sep + 1..dot][k] != '.';
    assert StemAt(p, sep + 1 + k, dot);
  }

  /** Otherwise (no '.' after the last '/', or only dots before it) there is no extension. */
  lemma NoExtension(p: string, sep: int, dot: int)
    requires sep == LastIndexOf(p, '/') && dot == LastIndexOf(p, '.')
    requires !(dot > sep && !OnlyDots(p[sep + 1..dot]))
    ensures forall d :: !ExtensionAt(p, d)
  {
  }

  /** An extension always starts at the last '.', after the last '/', with a non-dot character between them. */
  lemma ExtensionAtIsLastDot(p: string, d: int)
    requires ExtensionAt(p, d)
    ensures d == LastIndexOf(p, '.')
    ensures LastIndexOf(p, '/') < d
    ensures !OnlyDots(p[LastIndexOf(p, '/') + 1..d])
  {
  }

  /** The extension of `p`, leading '.' included, or "" when there is none. */
  function Extension(p: string): (e: string)
    ensures |e| <= |p|
    ensures e == [] || e[0] == '.'
    ensures forall k :: 0 < k < |e| ==> e[k] != '.' && e[k] != '/'
    ensures e == p[|p| - |e|..]
    ensures e != [] <==> exists d :: ExtensionAt(p, d)
    ensures forall d :: ExtensionAt(p, d) ==> e == p[d..]
  {
    var r := SplitExt(p);
    assert r.1 != [] ==> ExtensionAt(p, |r.0|);
    r.1
  }

  /** Lower-casing keeps every '.' and '/' where it was, so it keeps where the extension starts. */
  lemma ExtensionAtLower(p: string, d: int)
    ensures ExtensionAt(Lower(p), d) <==> ExtensionAt(p, d)
  {
    var q := Lower(p);
    assert forall j :: 0 <= j < |p| ==> (q[j] == '.' <==> p[j] == '.') && (q[j] == '/' <==> p[j] == '/');
    if 0 <= d <= |p| {
      forall i | 0 <= i < d ensures StemAt(q, i, d) <==> StemAt(p, i, d) {
      }
      if HasStem(p, d) {
        var i :| 0 <= i < d && StemAt(p, i, d);
        assert StemAt(q, i, d);
      }
      if HasStem(q, d) {
        var i :| 0 <= i < d && StemAt(q, i, d);
        assert StemAt(p, i, d);
      }
    }
  }

  /** Lower-casing a name and then taking its extension is the same as lower-casing its extension. */
  lemma ExtensionOfLower(p: string)
    ensures Extension(Lower(p)) == Lower(Extension(p))
  {
    var q := Lower(p);
    var rp := SplitExt(p);
    var rq := SplitExt(q);
    if rp.1 != [] {
      ExtensionAtLower(p, |rp.0|);
      LowerSuffix(p, |rp.0|);
    } else if rq.1 != [] {
      ExtensionAtLower(p, |rq.0|);
    }
  }
}
