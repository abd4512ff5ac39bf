/** The POSIX path operations `restoreCliJs` uses (`dirname`, `basename`,
    `join` of Node's `path` module), for paths without trailing slashes and
    without the normalisation of `.` and `..` segments. */
module Paths {
  import opened Text

  /** The index of the last `/` in `p`, or -1. */
  function LastSlash(p: string): (r: int)
    ensures -1 <= r < |p|
    ensures r >= 0 ==> p[r] == '/'
    ensures forall i | r < i < |p| :: p[i] != '/'
    decreases |p|
  {
    if p == [] then -1
    else if p[|p| - 1] == '/' then |p| - 1
    else LastSlash(p[..|p| - 1])
  }

  /** `path.dirname(p)`: everything before the last slash; `/` for a file
      at the root and `.` for a bare name. */
  function Dirname(p: string): (r: string)
    ensures '/' !in p ==> r == "."
    ensures StartsWith(p, "/") ==> StartsWith(r, "/")
  {
    var k := LastSlash(p);
    if k == -1 then "." else if k == 0 then "/" else p[..k]
  }

  /** `path.basename(p)`: everything after the last slash. */
  function Basename(p: string): (r: string)
    ensures forall i | 0 <= i < |r| :: r[i] != '/'
  {
    p[LastSlash(p) + 1..]
  }

  /** `path.join(dir, name)` for a name without slashes. */
  function Join(dir: string, name: string): (r: string)
    ensures '/' !in name ==> Basename(r) == name
  {
    var r := if dir == "." then name else if dir == "/" then "/" + name else dir + "/" + name;
    if '/' in name then r
    else
      var head := if dir == "." then "" else if dir == "/" then "/" else dir + "/";
      assert r == head + name;
      LastSlashAppend(head, name);
      r
  }

  /** The directory and the base name join back to the path, unless the
      directory is `.` or `/`, which `join` drops or does not double. */
  lemma DirnameJoin(p: string)
    requires Dirname(p) != "." && Dirname(p) != "/"
    ensures Join(Dirname(p), Basename(p)) == p
  {
    var k := LastSlash(p);
    assert p == p[..k] + [p[k]] + p[k + 1..];
  }

  /** Appending slash-free text to an absolute path keeps its directory and
      extends its base name: joining them back gives the extended path. */
  lemma {:induction false} ExtendName(p: string, s: string)
    requires StartsWith(p, "/") && !StartsWith(p, "//") && '/' !in s
    ensures Dirname(p + s) == Dirname(p)
    ensures Basename(p + s) == Basename(p) + s
    ensures Join(Dirname(p), Basename(p) + s) == p + s
  {
    LastSlashAppend(p, s);
    var k := LastSlash(p);
    assert p[0] == '/';
    assert (p + s)[..k] == p[..k];
    assert (p + s)[k + 1..] == p[k + 1..] + s;
    if k > 0 {
      assert p[..k][0] == '/';
      assert k > 1 by { assert !StartsWith(p, "//"); assert p[..2] != "//"; }
      DirnameJoin(p + s);
    } else {
      assert p == "/" + p[1..];
    }
  }

  /** Slash-free text after a path does not move its last slash. */
  lemma {:induction false} LastSlashAppend(p: string, s: string)
    requires '/' !in s
    ensures LastSlash(p + s) == LastSlash(p)
    decreases |s|
  {
    if s != [] {
      var t := p + s;
      assert t[..|t| - 1] == p + s[..|s| - 1];
      assert t[|t| - 1] == s[|s| - 1];
      LastSlashAppend(p, s[..|s| - 1]);
    } else {
      assert p + s == p;
    }
  }
}
