/** The parts of `os.path` the pipeline uses, for POSIX paths. */
module PosixPath {
  import opened Text

  /** `os.path.join(a, b)`: an absolute `b` replaces `a`, and a separator
      is added unless `a` is empty or already ends with one. */
  function PathJoin(a: string, b: string): (r: string)
    ensures EndsWith(r, b)
  {
    if StartsWith(b, "/") then b
    else if a == [] || EndsWith(a, "/") then a + b
    else a + "/" + b
  }

  /** `os.path.basename`: what follows the last `/`. */
  function Basename(p: string): (r: string)
    ensures |r| <= |p|
    decreases |p|
  {
    if p == [] || p[|p| - 1] == '/' then [] else Basename(p[..|p| - 1]) + [p[|p| - 1]]
  }

  /** `os.path.dirname`: what precedes the last `/`, without trailing
      separators unless it is made of nothing else. */
  function Dirname(p: string): (r: string)
    ensures |r| <= |p|
  {
    var head := p[..|p| - |Basename(p)|];
    if AllSlashes(head) then head else TrimSlashes(head)
  }

  predicate AllSlashes(s: string)
  {
    forall i :: 0 <= i < |s| ==> s[i] == '/'
  }

  function TrimSlashes(s: string): (r: string)
    ensures |r| <= |s| && r == s[..|r|]
    ensures r != [] ==> r[|r| - 1] != '/'
  {
    if s == [] || s[|s| - 1] != '/' then s else TrimSlashes(s[..|s| - 1])
  }

  /** The base name of a file joined under any directory is the file's own
      name. */
  lemma {:induction false} BasenameOfJoin(root: string, name: string)
    requires Lacks(name, '/') && name != []
    ensures Basename(PathJoin(root, name)) == name
  {
    assert !StartsWith(name, "/") by {
      assert name[0] != '/';
    }
    var p := PathJoin(root, name);
    assert p[|p| - |name|..] == name;
    assert |p| == |name| || p[|p| - |name| - 1] == '/';
    BasenameIsLastComponent(p, |p| - |name|);
  }

  /** The base name is the suffix after a `/` (or the whole path) that holds
      no `/`. */
  lemma {:induction false} BasenameIsLastComponent(p: string, k: nat)
    requires k < |p| && Lacks(p[k..], '/')
    requires k == 0 || p[k - 1] == '/'
    ensures Basename(p) == p[k..]
    decreases |p|
  {
    var q := p[..|p| - 1];
    var last := p[|p| - 1];
    assert last == p[k..][|p| - 1 - k];
    assert Basename(p) == Basename(q) + [last];
    if k < |p| - 1 {
      assert Lacks(q[k..], '/') by {
        forall j | 0 <= j < |q[k..]| ensures q[k..][j] != '/' {
          assert q[k..][j] == p[k..][j];
        }
      }
      BasenameIsLastComponent(q, k);
      assert p[k..] == q[k..] + [last];
    } else {
      assert Basename(q) == [] by {
        if k > 0 {
          assert q[|q| - 1] == '/';
        }
      }
      assert p[k..] == [last];
    }
  }
}
