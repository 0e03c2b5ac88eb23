/** The two POSIX path operations the writer uses: `os.path.basename` and `os.path.join`. */
module Paths {
  import opened Strings

  /** `p.rfind('/')`: the index of the last `/`, or -1 when there is none. */
  function LastSlash(p: string): (i: int)
    ensures -1 <= i < |p|
    ensures i >= 0 ==> p[i] == '/'
    ensures forall j :: i < j < |p| ==> p[j] != '/'
    decreases |p|
  {
    if |p| == 0 then -1
    else if p[|p| - 1] == '/' then |p| - 1
    else LastSlash(p[..|p| - 1])
  }

  /**
    `os.path.basename(p)`: everything after the last `/`. The contract pins it
    down completely: the longest suffix of `p` without a `/`.
  */
  function Basename(p: string): (b: string)
    ensures |b| <= |p| && b == p[|p| - |b|..]
    ensures '/' !in b
    ensures |b| < |p| ==> p[|p| - |b| - 1] == '/'
  {
    p[LastSlash(p) + 1..]
  }

  /** `os.path.join(dir, name)` for two components. */
  function JoinPath(dir: string, name: string): (path: string)
    ensures EndsWith(path, name)
  {
    if |name| > 0 && name[0] == '/' then name
    else if |dir| == 0 || dir[|dir| - 1] == '/' then dir + name
    else dir + "/" + name
  }

  /** A name without `/` is its own basename. */
  lemma BasenameOfPlain(p: string)
    requires '/' !in p
    ensures Basename(p) == p
  {
  }

  /**
    Joining a separator-free name onto a directory that does not end in `/`
    puts exactly one `/` between them, and the name is the basename of the result.
  */
  lemma JoinPathDirectlyInside(dir: string, name: string)
    requires |dir| > 0 && dir[|dir| - 1] != '/'
    requires '/' !in name
    ensures JoinPath(dir, name) == dir + "/" + name
    ensures Basename(JoinPath(dir, name)) == name
  {
    var path := dir + "/" + name;
    var b := Basename(path);
    assert path[|dir|] == '/';
    assert forall i :: |dir| < i < |path| ==> path[i] == name[i - |dir| - 1];
    assert forall i :: |path| - |b| <= i < |path| ==> path[i] == b[i - (|path| - |b|)];
    assert |b| == |name|;
    assert path[|path| - |name|..] == name;
  }
}
