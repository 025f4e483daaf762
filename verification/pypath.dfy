/** Python 2 `posixpath` functions on strings: `basename`, `dirname`,
    `split`, `join` and `normpath`. */
module PyPath {
  import opened PyStr

  /** `os.path.basename(p)`: everything after the last `/`. */
  function Basename(p: Str): (r: Str)
    ensures '/' !in r
    ensures EndsWith(p, r)
  {
    var i := RFind(p, "/") + 1;
    var r := p[i..];
    assert '/' !in r by {
      if '/' in r {
        var k :| 0 <= k < |r| && r[k] == '/';
        OccursAtChar(p, '/', i + k);
      }
    }
    r
  }

  predicate AllSlashes(s: Str) {
    forall k :: 0 <= k < |s| ==> s[k] == '/'
  }

  /** `os.path.dirname(p)`: everything up to the last `/`, with trailing
      slashes dropped unless the head is made of slashes only. */
  function Dirname(p: Str): (r: Str)
    ensures StartsWith(p, r)
  {
    var i := RFind(p, "/") + 1;
    var head := p[..i];
    if |head| > 0 && !AllSlashes(head) then RStripChar(head, '/') else head
  }

  /** `os.path.split(p) == (dirname(p), basename(p))` */
  function SplitPath(p: Str): (Str, Str) {
    (Dirname(p), Basename(p))
  }

  /** `os.path.join(a, b)` */
  function PathJoin(a: Str, b: Str): (r: Str)
    ensures EndsWith(r, b)
    ensures !StartsWith(b, "/") ==> StartsWith(r, a) && |a| + |b| <= |r| <= |a| + |b| + 1
  {
    if StartsWith(b, "/") then b
    else if a == [] || EndsWith(a, "/") then a + b
    else a + "/" + b
  }

  /** `os.path.join(a, *rest)` */
  function PathJoinAll(a: Str, rest: seq<Str>): Str
    decreases |rest|
  {
    if |rest| == 0 then a else PathJoinAll(PathJoin(a, rest[0]), rest[1..])
  }

  /** No two consecutive slashes. */
  predicate NoDoubleSlash(p: Str) {
    forall k :: 0 <= k < |p| - 1 ==> !(p[k] == '/' && p[k + 1] == '/')
  }

  /** `join(dirname(p), basename(p)) == p` for a path without `//`. */
  lemma JoinDirnameBasename(p: Str)
    requires NoDoubleSlash(p)
    ensures PathJoin(Dirname(p), Basename(p)) == p
  {
    var j := RFind(p, "/");
    if j == -1 {
      DirnameNoSlash(p);
    } else {
      OccursAtChar(p, '/', j);
      if j == 0 {
        DirnameRoot(p);
        assert p == "/" + p[1..];
      } else {
        assert p[j - 1] != '/';
        DirnameInner(p, j);
        var h := p[..j];
        var b := p[j + 1..];
        assert !EndsWith(h, "/") by { assert h[|h| - 1] == p[j - 1]; }
        assert !StartsWith(b, "/") by { assert '/' !in Basename(p); }
        assert p == h + "/" + b;
      }
    }
  }

  /** A path without `/` has no directory part. */
  lemma DirnameNoSlash(p: Str)
    requires RFind(p, "/") == -1
    ensures Dirname(p) == [] && Basename(p) == p
  {
  }

  /** A path whose only `/` leads has the root as directory part. */
  lemma DirnameRoot(p: Str)
    requires RFind(p, "/") == 0
    ensures Dirname(p) == "/" && Basename(p) == p[1..]
  {
    OccursAtChar(p, '/', 0);
    assert p[..1] == "/";
    assert AllSlashes(p[..1]);
  }

  /** With its last `/` after a character other than `/`, a path splits
      at that slash. */
  lemma DirnameInner(p: Str, j: int)
    requires j == RFind(p, "/") && j > 0
    requires p[j - 1] != '/'
    ensures Dirname(p) == p[..j] && Basename(p) == p[j + 1..]
  {
    OccursAtChar(p, '/', j);
    var head := p[..j + 1];
    var h := p[..j];
    assert !AllSlashes(head) by {
      assert head[j - 1] == p[j - 1];
    }
    assert head == h + "/";
    assert RStripChar(head, '/') == RStripChar(h, '/');
    assert RStripChar(h, '/') == h by {
      assert h[|h| - 1] == p[j - 1];
    }
  }

  /** The components `normpath` keeps, with `..` resolved. */
  function NormComps(cs: seq<Str>, rooted: bool, acc: seq<Str>): seq<Str>
    decreases |cs|
  {
    if |cs| == 0 then acc
    else
      var c := cs[0];
      if c == "" || c == "." then NormComps(cs[1..], rooted, acc)
      else if c != ".." || (!rooted && |acc| == 0) || (|acc| > 0 && acc[|acc| - 1] == "..") then
        NormComps(cs[1..], rooted, acc + [c])
      else if |acc| > 0 then NormComps(cs[1..], rooted, acc[..|acc| - 1])
      else NormComps(cs[1..], rooted, acc)
  }

  /** `os.path.normpath(p)`: one or two leading slashes are kept (three or
      more become one), empty and `.` components vanish, `..` cancels the
      component before it. */
  function NormPath(p: Str): Str {
    if p == [] then "."
    else
      var initial := if StartsWith(p, "/") then
                       (if StartsWith(p, "//") && !StartsWith(p, "///") then "//" else "/")
                     else "";
      var r := initial + Join(NormComps(Split(p, "/"), initial != "", []), "/");
      if r == [] then "." else r
  }

  /** A plain component: not empty, not `.` or `..`, no slash. */
  predicate PlainComponent(c: Str) {
    c != "" && c != "." && c != ".." && '/' !in c
  }

  lemma {:induction false} NormCompsPlain(cs: seq<Str>, rooted: bool, acc: seq<Str>)
    requires forall k :: 0 <= k < |cs| ==> PlainComponent(cs[k])
    ensures NormComps(cs, rooted, acc) == acc + cs
    decreases |cs|
  {
    if |cs| > 0 {
      NormCompsPlain(cs[1..], rooted, acc + [cs[0]]);
      assert acc + [cs[0]] + cs[1..] == acc + cs;
    }
  }

  /** A relative path made of plain components is already normal. */
  lemma NormPathPlain(cs: seq<Str>)
    requires |cs| >= 1
    requires forall k :: 0 <= k < |cs| ==> PlainComponent(cs[k])
    ensures NormPath(Join(cs, "/")) == Join(cs, "/")
  {
    var p := Join(cs, "/");
    SplitJoinChar(cs, '/');
    NormCompsPlain(cs, false, []);
    assert [] + cs == cs;
    assert p != [] by {
      JoinFirst(cs);
    }
    assert !StartsWith(p, "/") by {
      JoinFirst(cs);
    }
  }

  /** A join starts with its first part. */
  lemma {:induction false} JoinFirst(cs: seq<Str>)
    requires |cs| >= 1
    ensures StartsWith(Join(cs, "/"), cs[0])
  {
  }
}
