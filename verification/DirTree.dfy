/** The file system seen by the directory watcher: directories are i-nodes, each hanging from
    its parent by one named edge. Pathnames are derived, so renaming a directory changes a
    single edge and, through it, the pathname of every directory below. */
module DirTree {
  import opened Wrappers
  import opened Paths

  type Ino = nat

  /** `Root(path)` is a directory named on the command line, `Elsewhere` one that hangs from a
      directory the program does not monitor. */
  datatype Node = Root(path: string) | Elsewhere | Child(parent: Ino, name: string)

  type FileSystem = map<Ino, Node>

  /** `rank` witnesses that no directory is its own ancestor. */
  ghost predicate Ranked(fs: FileSystem, rank: map<Ino, nat>) {
    && rank.Keys == fs.Keys
    && forall i | i in fs && fs[i].Child? :: fs[i].parent in fs && rank[fs[i].parent] < rank[i]
  }

  /** Two entries of one directory have different names, and neither of two roots is inside the other. */
  ghost predicate Apart(fs: FileSystem, i: Ino, j: Ino)
    requires i in fs && j in fs
  {
    i != j ==>
      && (fs[i].Child? ==> fs[i] != fs[j])
      && (fs[i].Root? && fs[j].Root? ==> !InSubtree(fs[i].path, fs[j].path))
  }

  ghost predicate WellFormed(fs: FileSystem) {
    && (exists rank :: Ranked(fs, rank))
    && (forall i | i in fs && fs[i].Child? :: IsName(fs[i].name))
    && (forall i, j {:trigger Apart(fs, i, j)} | i in fs && j in fs :: Apart(fs, i, j))
  }

  /** The pathname of `i`, or None when it is not below a root. */
  ghost function PathFrom(fs: FileSystem, rank: map<Ino, nat>, i: Ino): Option<string>
    requires Ranked(fs, rank) && i in fs
    decreases rank[i]
  {
    match fs[i]
    case Root(path) => Some(path)
    case Elsewhere => None
    case Child(p, name) =>
      match PathFrom(fs, rank, p)
      case None => None
      case Some(dir) => Some(Join(dir, name))
  }

  /** Is `j` the directory `d` or somewhere below it? */
  ghost predicate BelowFrom(fs: FileSystem, rank: map<Ino, nat>, j: Ino, d: Ino)
    requires Ranked(fs, rank) && j in fs
    decreases rank[j]
  {
    j == d || (fs[j].Child? && BelowFrom(fs, rank, fs[j].parent, d))
  }

  ghost function RankOf(fs: FileSystem): (rank: map<Ino, nat>)
    requires WellFormed(fs)
    ensures Ranked(fs, rank)
  {
    var rank :| Ranked(fs, rank);
    rank
  }

  ghost function PathOf(fs: FileSystem, i: Ino): Option<string>
    requires WellFormed(fs) && i in fs
  {
    PathFrom(fs, RankOf(fs), i)
  }

  ghost predicate Below(fs: FileSystem, j: Ino, d: Ino)
    requires WellFormed(fs) && j in fs
  {
    BelowFrom(fs, RankOf(fs), j, d)
  }

  /** Every directory's pathname lies, as a string, under the pathname of each of its ancestors. */
  lemma {:induction false} BelowIsPrefix(fs: FileSystem, r: map<Ino, nat>, j: Ino, d: Ino)
    requires WellFormed(fs) && Ranked(fs, r) && j in fs && d in fs
    requires BelowFrom(fs, r, j, d)
    ensures PathFrom(fs, r, j).Some? == PathFrom(fs, r, d).Some?
    ensures PathFrom(fs, r, j).Some? ==> InSubtree(PathFrom(fs, r, d).value, PathFrom(fs, r, j).value)
    decreases r[j]
  {
    if j != d {
      var p := fs[j].parent;
      BelowIsPrefix(fs, r, p, d);
      if PathFrom(fs, r, p).Some? {
        SubtreeOfJoin(PathFrom(fs, r, d).value, PathFrom(fs, r, p).value, fs[j].name);
      }
    }
  }

  /** The root that `i` hangs from. */
  lemma {:induction false} RootAbove(fs: FileSystem, r: map<Ino, nat>, i: Ino) returns (top: Ino)
    requires WellFormed(fs) && Ranked(fs, r) && i in fs && PathFrom(fs, r, i).Some?
    ensures top in fs && fs[top].Root? && BelowFrom(fs, r, i, top)
    ensures InSubtree(fs[top].path, PathFrom(fs, r, i).value)
    decreases r[i]
  {
    if fs[i].Root? {
      top := i;
    } else {
      top := RootAbove(fs, r, fs[i].parent);
    }
    BelowIsPrefix(fs, r, i, top);
  }

  /** A root whose pathname is a prefix of `j`'s pathname is the root above `j`. */
  lemma RootIsAbove(fs: FileSystem, r: map<Ino, nat>, j: Ino, d: Ino)
    requires WellFormed(fs) && Ranked(fs, r) && j in fs && d in fs && fs[d].Root?
    requires PathFrom(fs, r, j).Some? && InSubtree(fs[d].path, PathFrom(fs, r, j).value)
    ensures BelowFrom(fs, r, j, d)
  {
    var top := RootAbove(fs, r, j);
    SubtreeLinear(fs[d].path, fs[top].path, PathFrom(fs, r, j).value);
    assert Apart(fs, d, top) && Apart(fs, top, d);
  }

  /** The string test decides the tree relation: for monitored directories, one pathname
      lies under another exactly when one directory is below the other. */
  lemma {:induction false} SubtreeTestDecides(fs: FileSystem, r: map<Ino, nat>, j: Ino, d: Ino)
    requires WellFormed(fs) && Ranked(fs, r) && j in fs && d in fs
    requires PathFrom(fs, r, j).Some? && PathFrom(fs, r, d).Some?
    ensures InSubtree(PathFrom(fs, r, d).value, PathFrom(fs, r, j).value) <==> BelowFrom(fs, r, j, d)
    decreases r[j]
  {
    var dPath, jPath := PathFrom(fs, r, d).value, PathFrom(fs, r, j).value;
    assert Apart(fs, j, d);
    if BelowFrom(fs, r, j, d) {
      BelowIsPrefix(fs, r, j, d);
    } else if fs[d].Root? {
      if InSubtree(dPath, jPath) {
        RootIsAbove(fs, r, j, d);
      }
    } else if fs[j].Root? {
      NothingAboveRoot(fs, r, j, d);
    } else {
      var p := fs[j].parent;
      SubtreeTestDecides(fs, r, p, d);
      SubtreeOfJoin(dPath, PathFrom(fs, r, p).value, fs[j].name);
      if dPath == jPath {
        var q := fs[d].parent;
        JoinInjective(PathFrom(fs, r, p).value, fs[j].name, PathFrom(fs, r, q).value, fs[d].name);
        SamePathFrom(fs, r, p, q);
      }
    }
  }

  lemma NothingAboveRoot(fs: FileSystem, r: map<Ino, nat>, j: Ino, d: Ino)
    requires WellFormed(fs) && Ranked(fs, r) && j in fs && d in fs && fs[j].Root? && fs[d].Child?
    requires PathFrom(fs, r, d).Some?
    ensures !InSubtree(PathFrom(fs, r, d).value, fs[j].path)
  {
    var p, dPath := fs[d].parent, PathFrom(fs, r, d).value;
    var top := RootAbove(fs, r, p);
    SubtreeOfJoin(fs[top].path, PathFrom(fs, r, p).value, fs[d].name);
    assert Apart(fs, top, j);
    if InSubtree(dPath, fs[j].path) {
      SubtreeTransitive(fs[top].path, dPath, fs[j].path);
    }
  }

  /** Pathnames identify monitored directories. */
  lemma {:induction false} SamePathFrom(fs: FileSystem, r: map<Ino, nat>, i: Ino, j: Ino)
    requires WellFormed(fs) && Ranked(fs, r) && i in fs && j in fs
    requires PathFrom(fs, r, i).Some? && PathFrom(fs, r, i) == PathFrom(fs, r, j)
    ensures i == j
    decreases r[i]
  {
    if fs[i].Child? && fs[j].Child? {
      var p, q := fs[i].parent, fs[j].parent;
      JoinInjective(PathFrom(fs, r, p).value, fs[i].name, PathFrom(fs, r, q).value, fs[j].name);
      SamePathFrom(fs, r, p, q);
      assert Apart(fs, i, j);
    } else if fs[i].Root? && fs[j].Child? {
      NothingAboveRoot(fs, r, i, j);
    } else if fs[j].Root? && fs[i].Child? {
      NothingAboveRoot(fs, r, j, i);
    } else {
      assert Apart(fs, i, j);
    }
  }

  lemma SubtreeTest(fs: FileSystem, j: Ino, d: Ino)
    requires WellFormed(fs) && j in fs && d in fs && PathOf(fs, j).Some? && PathOf(fs, d).Some?
    ensures InSubtree(PathOf(fs, d).value, PathOf(fs, j).value) <==> Below(fs, j, d)
  {
    SubtreeTestDecides(fs, RankOf(fs), j, d);
  }

  lemma SamePath(fs: FileSystem, i: Ino, j: Ino)
    requires WellFormed(fs) && i in fs && j in fs && PathOf(fs, i).Some? && PathOf(fs, i) == PathOf(fs, j)
    ensures i == j
  {
    SamePathFrom(fs, RankOf(fs), i, j);
  }

  // ----- what one changed edge does to every pathname -----

  /** `dest` may become the edge of `d`: the target directory exists, is not inside `d`, and
      the target name is free. */
  ghost predicate CanHang(fs: FileSystem, d: Ino, dest: Node)
    requires WellFormed(fs)
  {
    match dest
    case Root(_) => false
    case Elsewhere => true
    case Child(p, name) =>
      && p in fs && p != d && (d in fs ==> !Below(fs, p, d))
      && IsName(name)
      && forall i | i in fs :: fs[i] != dest
  }

  ghost function Relocated(fs: FileSystem, r: map<Ino, nat>, d: Ino, dest: Node): map<Ino, nat>
    requires Ranked(fs, r) && (dest.Child? ==> dest.parent in fs)
  {
    var lift := if dest.Child? then r[dest.parent] + 1 else 0;
    map i | i in fs.Keys + {d} ::
      if i !in fs then lift else if BelowFrom(fs, r, i, d) then r[i] + lift else r[i]
  }

  lemma RelocatedRanks(fs: FileSystem, r: map<Ino, nat>, d: Ino, dest: Node)
    requires Ranked(fs, r)
    requires dest.Child? ==> dest.parent in fs && !BelowFrom(fs, r, dest.parent, d)
    requires d !in fs ==> forall i | i in fs && fs[i].Child? :: fs[i].parent != d
    ensures Ranked(fs[d := dest], Relocated(fs, r, d, dest))
  {
    var fs', s := fs[d := dest], Relocated(fs, r, d, dest);
    forall i | i in fs' && fs'[i].Child?
      ensures fs'[i].parent in fs' && s[fs'[i].parent] < s[i]
    {
      if i != d {
        assert BelowFrom(fs, r, i, d) == BelowFrom(fs, r, fs[i].parent, d);
      }
    }
  }

  lemma {:induction false} NothingBelowLeaf(fs: FileSystem, r: map<Ino, nat>, j: Ino, d: Ino)
    requires Ranked(fs, r) && j in fs && j != d
    requires forall i | i in fs && fs[i].Child? :: fs[i].parent != d
    ensures !BelowFrom(fs, r, j, d)
    decreases r[j]
  {
    if fs[j].Child? {
      NothingBelowLeaf(fs, r, fs[j].parent, d);
    }
  }

  /** Hanging `d` from a free name keeps the file system a forest of named edges. */
  lemma HangKeepsForm(fs: FileSystem, d: Ino, dest: Node)
    requires WellFormed(fs) && CanHang(fs, d, dest)
    requires d !in fs ==> forall i | i in fs && fs[i].Child? :: fs[i].parent != d
    ensures WellFormed(fs[d := dest])
  {
    if d !in fs && dest.Child? {
      NothingBelowLeaf(fs, RankOf(fs), dest.parent, d);
    }
    RelocatedRanks(fs, RankOf(fs), d, dest);
    var fs' := fs[d := dest];
    forall i, j | i in fs' && j in fs'
      ensures Apart(fs', i, j)
    {
      if i != d && j != d {
        assert Apart(fs, i, j);
      }
    }
  }

  /** Directories outside the subtree of `d` keep their pathnames. */
  lemma {:induction false} OutsideKeepsPath(fs: FileSystem, fs': FileSystem, r: map<Ino, nat>, s: map<Ino, nat>,
                                            d: Ino, j: Ino)
    requires Ranked(fs, r) && Ranked(fs', s) && j in fs && j in fs'
    requires forall i | i in fs && i != d :: i in fs' && fs'[i] == fs[i]
    requires !BelowFrom(fs, r, j, d)
    ensures PathFrom(fs', s, j) == PathFrom(fs, r, j)
    decreases r[j]
  {
    if fs[j].Child? {
      OutsideKeepsPath(fs, fs', r, s, d, fs[j].parent);
    }
  }

  /** The part of `j`'s pathname after the pathname of its ancestor `d`. */
  ghost function Tail(fs: FileSystem, r: map<Ino, nat>, j: Ino, d: Ino): string
    requires Ranked(fs, r) && j in fs && BelowFrom(fs, r, j, d)
    decreases r[j]
  {
    if j == d then "" else Tail(fs, r, fs[j].parent, d) + "/" + fs[j].name
  }

  lemma {:induction false} PathSplits(fs: FileSystem, r: map<Ino, nat>, j: Ino, d: Ino)
    requires Ranked(fs, r) && j in fs && d in fs && BelowFrom(fs, r, j, d)
    ensures PathFrom(fs, r, j) ==
            match PathFrom(fs, r, d) { case None => None case Some(dir) => Some(dir + Tail(fs, r, j, d)) }
    decreases r[j]
  {
    if j == d {
      assert PathFrom(fs, r, d).Some? ==> PathFrom(fs, r, d).value + "" == PathFrom(fs, r, d).value;
    } else {
      var p := fs[j].parent;
      PathSplits(fs, r, p, d);
      if PathFrom(fs, r, d).Some? {
        var dir := PathFrom(fs, r, d).value;
        assert Join(dir + Tail(fs, r, p, d), fs[j].name) == dir + (Tail(fs, r, p, d) + "/" + fs[j].name);
      }
    }
  }

  lemma {:induction false} TailKept(fs: FileSystem, fs': FileSystem, r: map<Ino, nat>, s: map<Ino, nat>, d: Ino, j: Ino)
    requires Ranked(fs, r) && Ranked(fs', s) && d in fs && d in fs' && j in fs && j in fs'
    requires forall i | i in fs && i != d :: i in fs' && fs'[i] == fs[i]
    requires BelowFrom(fs, r, j, d)
    ensures BelowFrom(fs', s, j, d) && Tail(fs', s, j, d) == Tail(fs, r, j, d)
    decreases r[j]
  {
    if j != d {
      TailKept(fs, fs', r, s, d, fs[j].parent);
    }
  }

  /** One changed edge, seen from every directory: outside the subtree nothing moves; inside it
      the pathname is the new pathname of `d` plus the unchanged tail. */
  lemma EdgeChange(fs: FileSystem, d: Ino, dest: Node, j: Ino)
    requires WellFormed(fs) && CanHang(fs, d, dest) && d in fs && j in fs
    ensures WellFormed(fs[d := dest])
    ensures !Below(fs, j, d) ==> PathOf(fs[d := dest], j) == PathOf(fs, j)
    ensures Below(fs, j, d) ==> Below(fs[d := dest], j, d)
    ensures Below(fs, j, d) && PathOf(fs[d := dest], d).None? ==> PathOf(fs[d := dest], j).None?
    ensures Below(fs, j, d) && PathOf(fs[d := dest], d).Some? ==> PathOf(fs[d := dest], j).Some?
    ensures PathOf(fs, d).Some? && PathOf(fs[d := dest], d).Some? && PathOf(fs, j).Some? ==>
              PathOf(fs[d := dest], j) ==
              Some(Rebase(PathOf(fs, d).value, PathOf(fs[d := dest], d).value, PathOf(fs, j).value))
  {
    HangKeepsForm(fs, d, dest);
    var fs' := fs[d := dest];
    var r, s := RankOf(fs), RankOf(fs');
    if Below(fs, j, d) {
      TailKept(fs, fs', r, s, d, j);
      PathSplits(fs, r, j, d);
      PathSplits(fs', s, j, d);
      if PathOf(fs, d).Some? {
        BelowIsPrefix(fs, r, j, d);
        var dir := PathOf(fs, d).value;
        assert (dir + Tail(fs, r, j, d))[|dir|..] == Tail(fs, r, j, d);
      }
    } else {
      OutsideKeepsPath(fs, fs', r, s, d, j);
      if PathOf(fs, d).Some? && PathOf(fs, j).Some? {
        SubtreeTest(fs, j, d);
      }
    }
  }

  /** The pathname of a directory that hangs from `p` is its parent's pathname joined with its name. */
  lemma PathOfChild(fs: FileSystem, i: Ino)
    requires WellFormed(fs) && i in fs
    ensures fs[i].Root? ==> PathOf(fs, i) == Some(fs[i].path)
    ensures fs[i].Elsewhere? ==> PathOf(fs, i) == None
    ensures fs[i].Child? ==>
              && fs[i].parent in fs
              && var dir := PathOf(fs, fs[i].parent);
                 PathOf(fs, i) == if dir.Some? then Some(Join(dir.value, fs[i].name)) else None
  {
  }

  /** Adding or removing a directory nobody hangs from leaves every other pathname alone. */
  lemma LeafChange(fs: FileSystem, fs': FileSystem, d: Ino, j: Ino)
    requires WellFormed(fs) && WellFormed(fs') && j in fs && j in fs' && j != d
    requires forall i | i in fs && i != d :: i in fs' && fs'[i] == fs[i]
    requires forall i | i in fs && fs[i].Child? :: fs[i].parent != d
    ensures !Below(fs, j, d) && PathOf(fs', j) == PathOf(fs, j)
  {
    NothingBelowLeaf(fs, RankOf(fs), j, d);
    OutsideKeepsPath(fs, fs', RankOf(fs), RankOf(fs'), d, j);
  }
}
