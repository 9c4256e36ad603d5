/** Python's `posixpath` functions the converters use to name their output:
    `basename`, `dirname`, `splitext` and `join`. */
module PosixPath {
  import opened Wrappers
  import opened Text

  /** Python's `s.rfind(c)` for one character. */
  function LastIndexOf(s: string, c: char): (r: Option<nat>)
    ensures r.Some? ==> r.value < |s| && s[r.value] == c
    ensures r.Some? ==> forall k :: r.value < k < |s| ==> s[k] != c
    ensures r.None? ==> forall k :: 0 <= k < |s| ==> s[k] != c
  {
    if s == [] then None
    else if s[|s| - 1] == c then Some(|s| - 1)
    else LastIndexOf(s[..|s| - 1], c)
  }

  /** The last occurrence is the one with no occurrence after it. */
  lemma {:induction false} LastIndexOfAt(s: string, c: char, i: nat)
    requires i < |s| && s[i] == c
    requires forall k :: i < k < |s| ==> s[k] != c
    ensures LastIndexOf(s, c) == Some(i)
    decreases |s|
  {
    if i < |s| - 1 {
      var t := s[..|s| - 1];
      assert t[i] == c;
      LastIndexOfAt(t, c, i);
    }
  }

  lemma NoSlashNoLeadingSlash(b: string)
    requires forall k :: 0 <= k < |b| ==> b[k] != '/'
    ensures !StartsWith(b, "/")
  {
    if |b| > 0 {
      assert b[0] != '/';
    }
  }

  predicate AllChar(s: string, c: char) {
    forall k :: 0 <= k < |s| ==> s[k] == c
  }

  /** `os.path.basename(p)`: what follows the last slash. */
  function Basename(p: string): (r: string)
    ensures |r| <= |p| && r == p[|p| - |r|..]
    ensures forall k :: 0 <= k < |r| ==> r[k] != '/'
    ensures |r| < |p| ==> p[|p| - |r| - 1] == '/'
  {
    match LastIndexOf(p, '/')
    case None => p
    case Some(i) => p[i + 1..]
  }

  /** `head.rstrip('/')`. */
  function RStripSlashes(s: string): (r: string)
    ensures |r| <= |s| && r == s[..|r|]
    ensures forall k :: |r| <= k < |s| ==> s[k] == '/'
    ensures |r| > 0 ==> r[|r| - 1] != '/'
  {
    if |s| > 0 && s[|s| - 1] == '/' then RStripSlashes(s[..|s| - 1]) else s
  }

  /** A directory string of the shape `dirname` produces: empty, made only of
      slashes, or not ending with a slash. */
  predicate IsNormalDir(d: string) {
    d == [] || AllChar(d, '/') || d[|d| - 1] != '/'
  }

  /** `os.path.dirname(p)`: everything up to the last slash, with trailing
      slashes removed unless it consists only of slashes. */
  function Dirname(p: string): (r: string)
    ensures IsNormalDir(r)
    ensures |r| <= |p| && r == p[..|r|]
  {
    match LastIndexOf(p, '/')
    case None => ""
    case Some(i) =>
      var head := p[..i + 1];
      if AllChar(head, '/') then head else RStripSlashes(head)
  }

  /** `os.path.join(a, b)` for two components. */
  function Join(a: string, b: string): string {
    if StartsWith(b, "/") then b
    else if a == [] || EndsWith(a, "/") then a + b
    else a + "/" + b
  }

  /** A path cut in two: everything before the extension, and the
      extension itself. */
  datatype Parts = Parts(root: string, ext: string)

  /** `os.path.splitext(p)`: the extension is the part from the last dot of
      the last component on, unless that component has only dots before it. */
  function Splitext(p: string): (r: Parts)
    ensures r.root + r.ext == p
    ensures r.ext == [] || r.ext[0] == '.'
    ensures forall k :: 0 <= k < |r.ext| ==> r.ext[k] != '/'
    ensures forall k :: 1 <= k < |r.ext| ==> r.ext[k] != '.'
    ensures r.ext != [] ==> exists k :: 0 <= k < |r.root| && r.root[k] != '.' && NoSlashFrom(p, k)
  {
    var sepIndex: int := match LastIndexOf(p, '/') case Some(i) => i case None => -1;
    match LastIndexOf(p, '.')
    case Some(d) =>
      if d > sepIndex && !AllChar(p[sepIndex + 1..d], '.') then
        assert p[..d] + p[d..] == p;
        assert exists k :: 0 <= k < d && p[..d][k] != '.' && NoSlashFrom(p, k) by {
          var j :| 0 <= j < |p[sepIndex + 1..d]| && p[sepIndex + 1..d][j] != '.';
          assert p[..d][sepIndex + 1 + j] == p[sepIndex + 1 + j];
        }
        Parts(p[..d], p[d..])
      else
        Parts(p, [])
    case None => Parts(p, [])
  }

  /** No slash at or after position `k`: `k` lies in the last component. */
  predicate NoSlashFrom(p: string, k: nat) {
    forall m :: k <= m < |p| ==> p[m] != '/'
  }

  /** A dot in the last component with a non-dot character before it (in
      the same component) gives the path an extension: the one running from
      the last dot. */
  lemma SplitextHasExtension(p: string, k: nat, d: nat)
    requires k < d < |p| && p[k] != '.' && p[d] == '.' && NoSlashFrom(p, k)
    ensures Splitext(p).ext != []
  {
    var sepIndex: int := match LastIndexOf(p, '/') case Some(i) => i case None => -1;
    assert sepIndex < k;
    match LastIndexOf(p, '.')
    case None =>
    case Some(e) =>
      assert d <= e;
      assert p[sepIndex + 1..e][k - sepIndex - 1] == p[k];
  }

  /** The stem of `dir/name.ext` is `name` for a plain name and a
      one-dot extension, such as the `.csv` of an input file. */
  lemma StemOfPlainName(dir: string, name: string, ext: string)
    requires name != [] && '/' !in name && '.' !in name
    requires |ext| > 0 && ext[0] == '.' && '/' !in ext && '.' !in ext[1..]
    ensures Stem(Join(dir, name + ext)) == name
  {
    var b := name + ext;
    forall k | 0 <= k < |b| ensures b[k] != '/' {
      if k < |name| { assert b[k] == name[k]; } else { assert b[k] == ext[k - |name|]; }
    }
    BasenameOfJoin(dir, b);
    forall k | |name| < k < |b| ensures b[k] != '.' {
      assert b[k] == ext[1..][k - |name| - 1];
    }
    LastIndexOfAt(b, '.', |name|);
    SplitextHasExtension(b, 0, |name|);
    assert b[..|name|] == name;
  }

  /** The file name without its extension, Python's
      `os.path.splitext(os.path.basename(p))[0]`. */
  function Stem(p: string): (r: string)
    ensures forall k :: 0 <= k < |r| ==> r[k] != '/'
  {
    var b := Basename(p);
    var r := Splitext(b).root;
    assert r == b[..|r|];
    r
  }

  /** Joining a slash-free name onto a directory yields that name as the
      base name. */
  lemma BasenameOfJoin(a: string, b: string)
    requires forall k :: 0 <= k < |b| ==> b[k] != '/'
    ensures Basename(Join(a, b)) == b
  {
    var j := Join(a, b);
    NoSlashNoLeadingSlash(b);
    var n := |j| - |b|;
    assert j[n..] == b;
    assert n > 0 ==> j[n - 1] == '/';
    assert forall k :: n <= k < |j| ==> j[k] != '/';
    match LastIndexOf(j, '/')
    case None =>
    case Some(i) =>
      assert i == n - 1;
  }

  lemma RStripAppendedSlash(a: string)
    requires |a| > 0 && a[|a| - 1] != '/'
    ensures RStripSlashes(a + "/") == a
  {
    var s := a + "/";
    assert s[..|s| - 1] == a;
  }

  /** Joining a slash-free name onto a directory of the shape `dirname`
      produces, and taking `dirname` again, gives back that directory. */
  lemma DirnameOfJoin(a: string, b: string)
    requires forall k :: 0 <= k < |b| ==> b[k] != '/'
    requires IsNormalDir(a)
    ensures Dirname(Join(a, b)) == a
  {
    var j := Join(a, b);
    NoSlashNoLeadingSlash(b);
    if a == [] {
      assert j == b;
    } else if EndsWith(a, "/") {
      assert a[|a| - 1] == '/';
      assert AllChar(a, '/');
      assert j == a + b;
      LastIndexOfAt(j, '/', |a| - 1);
      assert j[..|a|] == a;
    } else {
      assert j == a + "/" + b;
      LastIndexOfAt(j, '/', |a|);
      assert j[..|a| + 1] == a + "/";
      assert (a + "/")[|a| - 1] == a[|a| - 1] != '/';
      RStripAppendedSlash(a);
    }
  }
}
