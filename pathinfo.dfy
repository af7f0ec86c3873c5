/**
 * PHP's `pathinfo($path, PATHINFO_FILENAME)` and
 * `pathinfo($path, PATHINFO_EXTENSION)` on a '/'-separated path, in an
 * ASCII-compatible locale. Both work on the base name of the path: trailing
 * slashes are dropped, then everything up to the last remaining '/'. The
 * extension is the text after the last '.' of the base name ("" when there is
 * no '.'), and the file name is the text before that '.' (the whole base name
 * when there is none).
 */
module PathInfo {

  /** The last position of `c` in `s`, or -1 (C's `memrchr`). */
  function LastIndexOf(s: string, c: char): (k: int)
    ensures -1 <= k < |s|
    ensures k >= 0 ==> s[k] == c
    ensures forall j :: k < j < |s| ==> s[j] != c
  {
    if |s| == 0 then -1
    else if s[|s| - 1] == c then |s| - 1
    else LastIndexOf(s[..|s| - 1], c)
  }

  /** `s` without its trailing '/' characters. */
  function StripTrailingSlashes(s: string): (r: string)
    ensures r <= s
    ensures |r| == 0 || r[|r| - 1] != '/'
    ensures forall j :: |r| <= j < |s| ==> s[j] == '/'
  {
    if |s| > 0 && s[|s| - 1] == '/' then StripTrailingSlashes(s[..|s| - 1]) else s
  }

  /** PHP's `basename($path)`: the last '/'-separated component. */
  function Basename(path: string): (b: string)
    ensures '/' !in b
    ensures '/' !in path ==> b == path
  {
    var t := StripTrailingSlashes(path);
    var k := LastIndexOf(t, '/');
    t[k + 1..]
  }

  /** `pathinfo($path, PATHINFO_FILENAME)`. */
  function Filename(path: string): (f: string)
    ensures '/' !in f
    ensures '.' !in Basename(path) ==> f == Basename(path)
  {
    var b := Basename(path);
    var k := LastIndexOf(b, '.');
    if k < 0 then b else b[..k]
  }

  /** `pathinfo($path, PATHINFO_EXTENSION)`. */
  function Extension(path: string): (e: string)
    ensures '.' !in e && '/' !in e
    ensures '.' !in Basename(path) ==> e == ""
  {
    var b := Basename(path);
    var k := LastIndexOf(b, '.');
    if k < 0 then "" else b[k + 1..]
  }

  /** The base name of `d/b` is its last component `b`, whatever the directory `d`. */
  lemma BasenameOfJoin(d: string, b: string)
    requires '/' !in b && b != []
    ensures Basename(d + "/" + b) == b
  {
    var p := d + "/" + b;
    assert p[|p| - 1] == b[|b| - 1];
    assert StripTrailingSlashes(p) == p;
    LastIndexOfJoin(d, '/', b);
    assert p[|d| + 1..] == b;
  }

  /** Trailing slashes are ignored: the base name of `p/` is that of `p`. */
  lemma BasenameOfTrailingSlash(p: string)
    ensures Basename(p + "/") == Basename(p)
  {
    var q := p + "/";
    assert q[..|q| - 1] == p;
  }

  /** The two parts put back together give the base name. */
  lemma BasenameSplit(path: string)
    ensures Basename(path) ==
      if '.' in Basename(path) then Filename(path) + "." + Extension(path) else Filename(path)
  {
    var b := Basename(path);
    var k := LastIndexOf(b, '.');
    if k >= 0 {
      assert b == b[..k] + "." + b[k + 1..];
    }
  }

  /** In `a + [c] + e` with no `c` in `e`, the last `c` is the one after `a`. */
  lemma {:induction false} LastIndexOfJoin(a: string, c: char, e: string)
    requires c !in e
    ensures LastIndexOf(a + [c] + e, c) == |a|
  {
    var s := a + [c] + e;
    if |e| > 0 {
      var e' := e[..|e| - 1];
      assert s[|s| - 1] == e[|e| - 1];
      assert s[..|s| - 1] == a + [c] + e';
      LastIndexOfJoin(a, c, e');
    }
  }

  /** A name `a.e` with no '/' and no '.' in `e` splits into `a` and `e`. */
  lemma PlainNameParts(a: string, e: string)
    requires '/' !in a && '/' !in e && '.' !in e
    ensures Filename(a + "." + e) == a
    ensures Extension(a + "." + e) == e
  {
    var s := a + "." + e;
    assert '/' !in s;
    LastIndexOfJoin(a, '.', e);
    assert s[..|a|] == a;
    assert s[|a| + 1..] == e;
  }
}
