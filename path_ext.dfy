/** POSIX `os.path.splitext`, which `extract_thumb_list` uses to take the
    extension of an attachment's file name. */
module PathExt {

  /** `str.rfind`: the index of the last `c` in `s`, or -1 when there is none. */
  function RFind(s: string, c: char): (i: int)
    ensures -1 <= i < |s|
    ensures 0 <= i ==> s[i] == c
    ensures forall j :: i < j < |s| ==> s[j] != c
  {
    if s == [] then -1
    else if s[|s| - 1] == c then |s| - 1
    else RFind(s[..|s| - 1], c)
  }

  /** Some character of `p` strictly between `lo` and `hi` is not a dot. */
  predicate HasNonDotBetween(p: string, lo: int, hi: int)
    requires -1 <= lo && hi <= |p|
  {
    exists i :: lo < i < hi && p[i] != '.'
  }

  /** `os.path.splitext(p)`: the extension starts at the last dot, provided
      that dot lies in the last path component and that component has a
      non-dot character before it (leading dots do not start an extension). */
  function SplitExt(p: string): (r: (string, string))
    ensures r.0 + r.1 == p
    ensures r.1 == [] || (r.1[0] == '.' && '.' !in r.1[1..] && '/' !in r.1[1..])
    ensures r.1 != [] ==> HasNonDotBetween(p, RFind(p, '/'), |r.0|)
  {
    var sepIndex := RFind(p, '/');
    var dotIndex := RFind(p, '.');
    if dotIndex > sepIndex && HasNonDotBetween(p, sepIndex, dotIndex) then
      var ext := p[dotIndex..];
      assert forall j :: 1 <= j < |ext| ==> ext[j] == p[dotIndex + j];
      (p[..dotIndex], ext)
    else
      (p, "")
  }

  /** `os.path.splitext(name)[1][1:]`: the extension without its dot, or "". */
  function Extension(name: string): (e: string)
    ensures '.' !in e && '/' !in e
    ensures e != [] ==> |e| < |name| && name[|name| - |e| - 1..] == "." + e
  {
    var (root, ext) := SplitExt(name);
    if ext == [] then [] else ext[1..]
  }

  /** The last `c` of `s + t` is the last `c` of `s` when `t` holds none. */
  lemma RFindAppend(s: string, t: string, c: char)
    requires c !in t
    ensures RFind(s + t, c) == RFind(s, c)
  {
    var k, i := RFind(s + t, c), RFind(s, c);
    assert forall j :: 0 <= j < |s| ==> (s + t)[j] == s[j];
    assert forall j :: |s| <= j < |s + t| ==> (s + t)[j] == t[j - |s|];
  }

  /** A name whose last component has a non-dot character before a final
      `.e` (with `e` free of dots and slashes) has extension `e`. */
  lemma {:induction false} ExtensionOf(stem: string, e: string)
    requires '.' !in e && '/' !in e
    requires HasNonDotBetween(stem, RFind(stem, '/'), |stem|)
    ensures Extension(stem + "." + e) == e
  {
    var p := stem + "." + e;
    assert p == stem + ("." + e);
    RFindAppend(stem, "." + e, '/');
    assert p == (stem + ".") + e;
    RFindAppend(stem + ".", e, '.');
    assert RFind(stem + ".", '.') == |stem|;
    var i :| RFind(stem, '/') < i < |stem| && stem[i] != '.';
    assert p[i] == stem[i];
    assert HasNonDotBetween(p, RFind(p, '/'), |stem|);
    assert SplitExt(p) == (stem, "." + e);
  }

  /** A name with no dot in its last component has no extension. */
  lemma {:induction false} NoDotNoExtension(name: string)
    requires forall j :: RFind(name, '/') < j < |name| ==> name[j] != '.'
    ensures Extension(name) == []
  {
  }
}
