/**
 * Go's path/filepath on a Unix system, reduced to what the router uses:
 * Ext (the suffix from the last '.' of the final element), Base (the final
 * element) and Join of a directory and a file name.
 */
module Paths {
  import opened Strings

  type Path = string

  /** No path separator in `s`. */
  predicate NoSlash(s: string) {
    forall i :: 0 <= i < |s| ==> s[i] != '/'
  }

  /** A non-empty extension as filepath.Ext returns it: a '.' followed by neither '.' nor '/'. */
  predicate IsExtension(e: string) {
    && |e| > 0
    && e[0] == '.'
    && forall i :: 1 <= i < |e| ==> e[i] != '.' && e[i] != '/'
  }

  /**
   * filepath.Ext: scanning back from the end, the suffix that starts at the first
   * '.' met before any '/'; empty when a '/' or the start comes first.
   */
  function Ext(p: Path): (e: string)
    ensures HasSuffix(p, e)
    ensures e != [] ==> IsExtension(e)
    ensures e == [] ==> forall i :: 0 <= i < |p| && p[i] == '.' ==> exists k :: i < k < |p| && p[k] == '/'
    decreases |p|
  {
    if |p| == 0 then []
    else
      var c := p[|p| - 1];
      if c == '/' then []
      else if c == '.' then ['.']
      else
        var e := Ext(p[..|p| - 1]);
        if e == [] then [] else e + [c]
  }

  /** The element after the last '/', before any trailing separators are removed. */
  function LastElem(p: Path): (r: string)
    ensures HasSuffix(p, r)
    ensures NoSlash(r)
    ensures r == p || p[|p| - |r| - 1] == '/'
    decreases |p|
  {
    if |p| == 0 then []
    else if p[|p| - 1] == '/' then []
    else LastElem(p[..|p| - 1]) + [p[|p| - 1]]
  }

  /** `p` with every trailing '/' removed. */
  function StripSlashes(p: Path): (r: Path)
    ensures r <= p
    ensures r == [] || r[|r| - 1] != '/'
    ensures forall i :: |r| <= i < |p| ==> p[i] == '/'
    decreases |p|
  {
    if |p| > 0 && p[|p| - 1] == '/' then StripSlashes(p[..|p| - 1]) else p
  }

  /** filepath.Base: "." for the empty path, "/" for a path of separators only, else the final element. */
  function Base(p: Path): (r: string)
  {
    if p == [] then "."
    else
      var e := LastElem(StripSlashes(p));
      if e == [] then "/" else e
  }

  /**
   * filepath.Join(dir, name) for a clean directory and a single file name:
   * the name alone when the directory is empty, else the two joined by one '/'.
   */
  function Join(dir: Path, name: string): (r: Path)
  {
    if dir == [] then name
    else if dir[|dir| - 1] == '/' then dir + name
    else dir + "/" + name
  }

  /** The extension of a path is a suffix of its final element. */
  lemma {:induction false} ExtInLastElem(p: Path)
    ensures HasSuffix(LastElem(p), Ext(p))
    decreases |p|
  {
    if |p| > 0 && p[|p| - 1] != '/' && p[|p| - 1] != '.' {
      var q := p[..|p| - 1];
      ExtInLastElem(q);
      var c := p[|p| - 1];
      if Ext(q) != [] {
        assert Ext(p) == Ext(q) + [c];
        assert LastElem(p) == LastElem(q) + [c];
      }
    }
  }

  /**
   * A path with a non-empty extension ends in a file name, and that name ends
   * with the extension.
   */
  lemma BaseEndsWithExt(p: Path)
    requires Ext(p) != []
    ensures Base(p) == LastElem(p)
    ensures HasSuffix(Base(p), Ext(p))
    ensures |Base(p)| > 0 && NoSlash(Base(p))
  {
    ExtInLastElem(p);
    assert p[|p| - 1] != '/';
    assert StripSlashes(p) == p;
  }

  /** Appending a name with no separator to a path that is empty or ends in '/' makes that name the final element. */
  lemma {:induction false} LastElemAfterSlash(a: Path, n: string)
    requires a == [] || a[|a| - 1] == '/'
    requires NoSlash(n)
    ensures LastElem(a + n) == n
    decreases |n|
  {
    if n != [] {
      var n' := n[..|n| - 1];
      assert (a + n)[..|a + n| - 1] == a + n';
      LastElemAfterSlash(a, n');
    } else {
      assert a + n == a;
    }
  }

  /** Joining a directory and a plain file name, then taking Base, gives the name back. */
  lemma BaseOfJoin(dir: Path, name: string)
    requires name != [] && NoSlash(name)
    ensures Base(Join(dir, name)) == name
  {
    var j := Join(dir, name);
    if dir == [] {
      LastElemAfterSlash([], name);
      assert [] + name == name;
    } else if dir[|dir| - 1] == '/' {
      LastElemAfterSlash(dir, name);
    } else {
      assert j == (dir + "/") + name;
      LastElemAfterSlash(dir + "/", name);
    }
    assert j[|j| - 1] == name[|name| - 1];
    assert StripSlashes(j) == j;
  }

  /** Within one directory, different names give different paths. */
  lemma JoinInjective(dir: Path, a: string, b: string)
    requires Join(dir, a) == Join(dir, b)
    ensures a == b
  {
    if dir != [] && dir[|dir| - 1] != '/' {
      assert a == Join(dir, a)[|dir| + 1..];
    } else if dir != [] {
      assert a == Join(dir, a)[|dir|..];
    }
  }

  /** Whatever precedes it, a path ending in an extension has that extension. */
  lemma {:induction false} ExtOfSuffix(s: string, e: string)
    requires IsExtension(e)
    ensures Ext(s + e) == e
    decreases |e|
  {
    var p := s + e;
    if |e| > 1 {
      var e' := e[..|e| - 1];
      assert p[..|p| - 1] == s + e';
      ExtOfSuffix(s, e');
      assert e == e' + [e[|e| - 1]];
    }
  }

  /** Join distributes over a name built by appending: the appended part ends the path. */
  lemma JoinAppend(dir: Path, a: string, b: string)
    ensures Join(dir, a + b) == Join(dir, a) + b
  {
    if dir == [] {
    } else if dir[|dir| - 1] == '/' {
      assert dir + (a + b) == (dir + a) + b;
    } else {
      assert dir + "/" + (a + b) == (dir + "/" + a) + b;
    }
  }

  /** Lower-casing keeps a string an extension: '.' and '/' are not letters. */
  lemma LowerExtension(e: string)
    requires IsExtension(e)
    ensures IsExtension(Lower(e))
  {
  }
}
