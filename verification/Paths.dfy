/** Pathname strings as the directory watcher compares and rewrites them.
    A pathname is a C string without its terminator, so "path[len] == '\0'" in the
    program is "|path| == len" here. */
module Paths {

  /** The test made by the rewrite and zap loops: `dir` is a prefix of `path` that ends
      at the end of `path` or at a '/'. */
  predicate InSubtree(dir: string, path: string) {
    dir <= path && (|path| == |dir| || path[|dir|] == '/')
  }

  /** What the kernel accepts as the name of one directory entry. */
  predicate IsName(name: string) {
    name != "" && '/' !in name
  }

  function Join(dir: string, name: string): string {
    dir + "/" + name
  }

  /** The new text of one cached pathname after the directory `src` became `dst`. */
  function Rebase(src: string, dst: string, path: string): string {
    if InSubtree(src, path) then dst + path[|src|..] else path
  }

  /** The string test climbs exactly one path component at a time. */
  lemma SubtreeOfJoin(dir: string, parent: string, name: string)
    requires IsName(name)
    ensures InSubtree(dir, Join(parent, name)) <==> dir == Join(parent, name) || InSubtree(dir, parent)
  {
    var path := Join(parent, name);
    assert forall k | |parent| < k < |path| :: path[k] == name[k - |parent| - 1];
    if dir <= path && |dir| <= |parent| {
      assert dir == path[..|dir|] == parent[..|dir|];
    }
    if dir <= parent {
      assert dir == parent[..|dir|] == path[..|dir|];
    }
  }

  /** Two joined pathnames are equal only if both parts are. */
  lemma JoinInjective(p: string, n: string, q: string, m: string)
    requires IsName(n) && IsName(m) && Join(p, n) == Join(q, m)
    ensures p == q && n == m
  {
    SubtreeOfJoin(p, q, m);
    SubtreeOfJoin(q, p, n);
    var path := Join(p, n);
    assert p == path[..|p|] && q == path[..|q|];
    assert n == path[|p| + 1..] && m == path[|q| + 1..];
  }

  lemma SubtreeTransitive(a: string, b: string, c: string)
    requires InSubtree(a, b) && InSubtree(b, c)
    ensures InSubtree(a, c)
  {
    assert a == b[..|a|] == c[..|a|];
  }

  /** Two directories that both hold `c` are nested one in the other. */
  lemma SubtreeLinear(a: string, b: string, c: string)
    requires InSubtree(a, c) && InSubtree(b, c)
    ensures InSubtree(a, b) || InSubtree(b, a)
  {
    if |a| <= |b| {
      assert a == c[..|a|] == b[..|a|];
    } else {
      assert b == c[..|b|] == a[..|b|];
    }
  }

  /** A rename moves the entry and everything below it at a '/' boundary, keeping the rest of
      the name, and touches nothing else: not even a sibling whose name merely starts with
      the old name. */
  lemma RebaseEffect(src: string, dst: string, path: string)
    requires src != dst
    ensures Rebase(src, dst, path) != path <==> InSubtree(src, path)
    ensures InSubtree(src, path) ==>
              exists rest: string :: path == src + rest && Rebase(src, dst, path) == dst + rest
                                     && (rest == "" || rest[0] == '/')
    ensures forall c: char, rest: string | c != '/' && path == src + [c] + rest :: Rebase(src, dst, path) == path
  {
    if InSubtree(src, path) {
      var rest := path[|src|..];
      assert path == src + rest && Rebase(src, dst, path) == dst + rest;
      assert (dst + rest)[..|dst|] == dst && (src + rest)[..|src|] == src;
    }
    forall c: char, rest: string | c != '/' && path == src + [c] + rest
      ensures Rebase(src, dst, path) == path
    {
      assert path[|src|] == c;
    }
  }

  /** The reverse rename restores every pathname that was not already under the new prefix. */
  lemma RebaseUndone(src: string, dst: string, path: string)
    requires !InSubtree(dst, path)
    ensures Rebase(dst, src, Rebase(src, dst, path)) == path
  {
    if InSubtree(src, path) {
      var moved := dst + path[|src|..];
      assert moved[|dst|..] == path[|src|..];
      assert InSubtree(dst, moved);
      assert src + path[|src|..] == path;
    }
  }
}
