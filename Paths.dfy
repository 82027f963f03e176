/**
 * The POSIX `os.path` helpers the core uses on path strings: `basename`,
 * `dirname`, `splitext` and two-argument `join`. (`abspath` consults the
 * working directory and stays a parameter of the functions that need it.)
 */
module Paths {

  /** `s.rfind(c)`: the index of the last `c` in `s`, or -1. */
  function RFind(s: string, c: char): (r: int)
    ensures -1 <= r < |s|
    ensures r >= 0 ==> s[r] == c
    ensures forall k :: r < k < |s| ==> s[k] != c
  {
    if s == [] then -1
    else if s[|s| - 1] == c then |s| - 1
    else RFind(s[..|s| - 1], c)
  }

  /** `os.path.basename(p)`: what follows the last '/'. */
  function Basename(p: string): (r: string)
    ensures '/' !in r
    ensures |r| <= |p| && r == p[|p| - |r|..]
    ensures |r| < |p| ==> p[|p| - |r| - 1] == '/'
  {
    p[RFind(p, '/') + 1..]
  }

  predicate AllSlashes(s: string) {
    forall i :: 0 <= i < |s| ==> s[i] == '/'
  }

  function TrimSlashesEnd(s: string): (r: string)
    ensures |r| <= |s| && r == s[..|r|]
    ensures r != [] ==> r[|r| - 1] != '/'
    ensures forall k :: |r| <= k < |s| ==> s[k] == '/'
  {
    if s != [] && s[|s| - 1] == '/' then TrimSlashesEnd(s[..|s| - 1]) else s
  }

  /** `os.path.dirname(p)`: everything up to the last '/', without trailing
      slashes unless it consists of slashes only. */
  function Dirname(p: string): (r: string)
    ensures |r| <= |p| - |Basename(p)| && r == p[..|r|]
    ensures '/' !in p <==> r == []
    ensures r != [] && !AllSlashes(r) ==> r[|r| - 1] != '/'
    ensures AllSlashes(r) ==> |r| == |p| - |Basename(p)|
    ensures forall k :: |r| <= k < |p| - |Basename(p)| ==> p[k] == '/'
  {
    var i := RFind(p, '/');
    var head := p[..i + 1];
    assert |head| == |p| - |Basename(p)|;
    assert '/' in p ==> p[i] == '/';
    if head != [] && !AllSlashes(head) then
      var r := TrimSlashesEnd(head);
      assert r == [] ==> AllSlashes(head);
      assert forall k :: |r| <= k < |head| ==> p[k] == head[k];
      r
    else head
  }

  /** The condition under which `splitext` splits at `dot`: the last dot lies
      after the last slash and is preceded, within the last component, by a
      character other than '.'. */
  predicate SplitsAt(p: string, slash: int, dot: int)
    requires -1 <= slash < |p| && -1 <= dot < |p|
  {
    dot > slash && exists k :: slash + 1 <= k < dot && p[k] != '.'
  }

  /** `os.path.splitext(p)` as a pair (root, ext). */
  function SplitExt(p: string): (r: (string, string))
    ensures r.0 + r.1 == p
    ensures r.1 == [] || (r.1[0] == '.' && '/' !in r.1 && '.' !in r.1[1..])
    ensures r.1 != [] ==> exists k :: 0 <= k < |r.0| && r.0[k] != '.' && '/' !in r.0[k..]
  {
    var slash := RFind(p, '/');
    var dot := RFind(p, '.');
    if SplitsAt(p, slash, dot) then
      var k :| slash + 1 <= k < dot && p[k] != '.';
      assert '/' !in p[..dot][k..] by {
        forall j | 0 <= j < |p[..dot][k..]| ensures p[..dot][k..][j] != '/' {
          assert p[..dot][k..][j] == p[k + j];
        }
      }
      (p[..dot], p[dot..])
    else (p, [])
  }

  /** The extension is non-empty exactly when the base name holds a dot
      with a character other than '.' somewhere before it. */
  lemma SplitExtFinds(p: string)
    ensures SplitExt(p).1 != [] <==>
      exists j, k :: 0 <= k < j < |Basename(p)| && Basename(p)[j] == '.' && Basename(p)[k] != '.'
  {
    if SplitExt(p).1 != [] {
      ExtHasDot(p);
    }
    forall j, k | 0 <= k < j < |Basename(p)| && Basename(p)[j] == '.' && Basename(p)[k] != '.'
      ensures SplitExt(p).1 != []
    {
      DotGivesExt(p, j, k);
    }
  }

  lemma ExtHasDot(p: string)
    requires SplitExt(p).1 != []
    ensures exists j, k :: 0 <= k < j < |Basename(p)| && Basename(p)[j] == '.' && Basename(p)[k] != '.'
  {
    var b := Basename(p);
    var slash := RFind(p, '/');
    var dot := RFind(p, '.');
    assert b == p[slash + 1..];
    assert SplitsAt(p, slash, dot);
    var k :| slash + 1 <= k < dot && p[k] != '.';
    assert b[dot - slash - 1] == p[dot];
    assert b[k - slash - 1] == p[k];
  }

  lemma DotGivesExt(p: string, j: int, k: int)
    requires 0 <= k < j < |Basename(p)| && Basename(p)[j] == '.' && Basename(p)[k] != '.'
    ensures SplitExt(p).1 != []
  {
    var b := Basename(p);
    var slash := RFind(p, '/');
    var dot := RFind(p, '.');
    assert b == p[slash + 1..];
    assert p[slash + 1 + j] == b[j];
    assert p[slash + 1 + k] == b[k];
    assert slash + 1 + j <= dot;
    assert SplitsAt(p, slash, dot);
  }

  /** `splitext(p)[1]` */
  function Ext(p: string): string {
    SplitExt(p).1
  }

  /** `splitext(p)[0]` */
  function Root(p: string): string {
    SplitExt(p).0
  }

  /** A file name `stem + "." + e`, with `e` free of '.' and '/' and a stem
      holding a character other than '.', has extension `"." + e`. */
  lemma ExtOfName(stem: string, e: string)
    requires '/' !in stem && '.' !in e && '/' !in e
    requires exists k :: 0 <= k < |stem| && stem[k] != '.'
    ensures SplitExt(stem + "." + e) == (stem, "." + e)
  {
    var p := stem + "." + e;
    var dot := |stem|;
    assert p[dot] == '.';
    assert forall j :: dot < j < |p| ==> p[j] == e[j - dot - 1];
    assert RFind(p, '.') == dot;
    var slash := RFind(p, '/');
    assert slash == -1 by {
      forall j | 0 <= j < |p| ensures p[j] != '/' {
        if j < dot { assert p[j] == stem[j]; }
      }
    }
    var k :| 0 <= k < |stem| && stem[k] != '.';
    assert p[k] == stem[k];
    assert SplitsAt(p, slash, dot);
    assert p[..dot] == stem;
    assert p[dot..] == "." + e;
  }

  /** `os.path.join(a, b)` */
  function Join(a: string, b: string): (r: string)
    ensures |b| <= |r| && r[|r| - |b|..] == b
    ensures b != [] && b[0] == '/' ==> r == b
    ensures (b == [] || b[0] != '/') ==> |a| <= |r| <= |a| + |b| + 1 && r[..|a|] == a
  {
    if b != [] && b[0] == '/' then b
    else if a == [] || a[|a| - 1] == '/' then a + b
    else a + "/" + b
  }

  /** The directory of `join(d, name)` is `d`, for a directory without a
      trailing slash and a plain file name. */
  lemma DirnameOfJoin(d: string, name: string)
    requires d != [] && d[|d| - 1] != '/' && '/' !in name
    ensures Dirname(Join(d, name)) == d
  {
    var p := Join(d, name);
    assert p == d + "/" + name;
    assert p[|d|] == '/';
    assert forall k :: |d| < k < |p| ==> p[k] == name[k - |d| - 1];
    assert RFind(p, '/') == |d|;
    var head := p[..|d| + 1];
    assert head[|d| - 1] == d[|d| - 1];
    assert !AllSlashes(head);
    assert head[..|d|] == d;
    assert TrimSlashesEnd(head) == TrimSlashesEnd(d);
  }

  /** Joining a directory and a plain file name yields a path whose base
      name is that file name. */
  lemma BasenameOfJoin(a: string, b: string)
    requires '/' !in b && b != []
    ensures Basename(Join(a, b)) == b
  {
    var r := Join(a, b);
    var i := |r| - |b|;
    assert i > 0 ==> r[i - 1] == '/';
    assert forall j :: i <= j < |r| ==> r[j] == b[j - i];
    assert RFind(r, '/') == i - 1;
  }
}
