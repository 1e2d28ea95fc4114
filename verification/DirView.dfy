/** What a file system looks like from outside: the pathname of every monitored directory, and how
    creating, removing and renaming one directory changes that map. */
module DirView {
  import opened Wrappers
  import opened Paths
  import opened DirTree

  /** Every monitored directory with its pathname. */
  ghost function View(fs: FileSystem): map<Ino, string>
    requires WellFormed(fs)
  {
    map i | i in fs && PathOf(fs, i).Some? :: PathOf(fs, i).value
  }

  ghost function RootTexts(fs: FileSystem): set<string> {
    set i | i in fs && fs[i].Root? :: fs[i].path
  }

  /** The monitored directories at and below `dir`. */
  ghost function ViewUnder(view: map<Ino, string>, dir: string): map<Ino, string> {
    map i | i in view && InSubtree(dir, view[i]) :: view[i]
  }

  /** A directory has the pathname of a root only if it is that root. */
  lemma RootByText(fs: FileSystem, i: Ino)
    requires WellFormed(fs) && i in View(fs)
    ensures View(fs)[i] in RootTexts(fs) <==> fs[i].Root?
  {
    if View(fs)[i] in RootTexts(fs) {
      var r :| r in fs && fs[r].Root? && fs[r].path == View(fs)[i];
      SamePath(fs, i, r);
    }
  }

  lemma ViewInjective(fs: FileSystem, i: Ino, j: Ino)
    requires WellFormed(fs) && i in View(fs) && j in View(fs) && View(fs)[i] == View(fs)[j]
    ensures i == j
  {
    SamePath(fs, i, j);
  }

  /** Every monitored directory is under some root, and everything under a root is monitored. */
  lemma ViewIsUnderRoots(fs: FileSystem, i: Ino)
    requires WellFormed(fs) && i in View(fs)
    ensures exists text :: text in RootTexts(fs) && InSubtree(text, View(fs)[i])
  {
    var top := RootAbove(fs, RankOf(fs), i);
    assert fs[top].path in RootTexts(fs);
  }

  /** Creating `d`, or renaming it in from outside, adds the directories under its pathname and
      changes nothing else. */
  lemma AttachView(fs: FileSystem, d: Ino, dest: Node)
    requires WellFormed(fs) && CanHang(fs, d, dest) && d !in View(fs)
    requires dest.Child? && dest.parent in View(fs)
    ensures WellFormed(fs[d := dest]) && RootTexts(fs[d := dest]) == RootTexts(fs)
    ensures d in View(fs[d := dest]) && View(fs[d := dest])[d] == Join(View(fs)[dest.parent], dest.name)
    ensures View(fs) == View(fs[d := dest]) - ViewUnder(View(fs[d := dest]), View(fs[d := dest])[d]).Keys
  {
    var fs' := fs[d := dest];
    HangKeepsForm(fs, d, dest);
    RootTextsKept(fs, fs', d);
    AttachedPath(fs, d, dest, dest.parent);
    PathOfChild(fs', d);
    var rest := View(fs') - ViewUnder(View(fs'), View(fs')[d]).Keys;
    forall j | j in View(fs) || j in rest
      ensures j in View(fs) && j in rest && View(fs)[j] == rest[j]
    {
      if j != d {
        AttachedPath(fs, d, dest, j);
      }
    }
  }

  /** Creating or moving a directory wholly outside the monitored trees is invisible. */
  lemma OutsideView(fs: FileSystem, d: Ino, dest: Node)
    requires WellFormed(fs) && CanHang(fs, d, dest) && d !in View(fs)
    requires dest.Elsewhere? || dest.parent !in View(fs)
    ensures WellFormed(fs[d := dest]) && RootTexts(fs[d := dest]) == RootTexts(fs)
    ensures View(fs[d := dest]) == View(fs)
  {
    var fs' := fs[d := dest];
    HangKeepsForm(fs, d, dest);
    RootTextsKept(fs, fs', d);
    if dest.Child? {
      AttachedPath(fs, d, dest, dest.parent);
    }
    PathOfChild(fs', d);
    forall j | j in View(fs) || j in View(fs')
      ensures j in View(fs) && j in View(fs') && View(fs)[j] == View(fs')[j]
    {
      AttachedPath(fs, d, dest, j);
    }
  }

  lemma AttachedPath(fs: FileSystem, d: Ino, dest: Node, j: Ino)
    requires WellFormed(fs) && WellFormed(fs[d := dest]) && CanHang(fs, d, dest) && d !in View(fs) && j in fs
    ensures var fs' := fs[d := dest];
            && (j in View(fs) ==> j in View(fs') && View(fs')[j] == View(fs)[j])
            && (j in View(fs') ==> j in View(fs) || d in View(fs'))
            && (j in View(fs') && d in View(fs') ==> (j in View(fs) <==> !InSubtree(View(fs')[d], View(fs')[j])))
            && (dest.Child? && dest.parent == j ==> (j in View(fs) <==> j in View(fs')))
  {
    var fs' := fs[d := dest];
    if d in fs {
      EdgeChange(fs, d, dest, j);
      if Below(fs, j, d) {
        BelowIsPrefix(fs, RankOf(fs), j, d);
      }
    } else {
      LeafChange(fs, fs', d, j);
    }
    if j in View(fs') && d in View(fs') {
      SubtreeTest(fs', j, d);
      if !Below(fs, j, d) {
        NotDraggedAlong(fs, d, dest, j);
      }
    }
  }

  lemma RootTextsKept(fs: FileSystem, fs': FileSystem, d: Ino)
    requires forall i | i in fs && i != d :: i in fs' && fs'[i] == fs[i]
    requires forall i | i in fs' && i != d :: i in fs
    requires d in fs ==> !fs[d].Root?
    requires d in fs' ==> !fs'[d].Root?
    ensures RootTexts(fs') == RootTexts(fs)
  {
    forall text | text in RootTexts(fs)
      ensures text in RootTexts(fs')
    {
      var i :| i in fs && fs[i].Root? && fs[i].path == text;
      assert fs'[i].Root?;
    }
    forall text | text in RootTexts(fs')
      ensures text in RootTexts(fs)
    {
      var i :| i in fs' && fs'[i].Root? && fs'[i].path == text;
      assert fs[i].Root?;
    }
  }

  /** A directory that was not below `d` is not below it after `d` has moved. */
  lemma NotDraggedAlong(fs: FileSystem, d: Ino, dest: Node, j: Ino)
    requires WellFormed(fs) && WellFormed(fs[d := dest]) && j in fs && j != d && !Below(fs, j, d)
    ensures !Below(fs[d := dest], j, d)
  {
    StaysOutside(fs, fs[d := dest], RankOf(fs), RankOf(fs[d := dest]), d, j);
  }

  lemma {:induction false} StaysOutside(fs: FileSystem, fs': FileSystem, r: map<Ino, nat>, s: map<Ino, nat>, d: Ino,
                                        j: Ino)
    requires Ranked(fs, r) && Ranked(fs', s) && j in fs && j in fs'
    requires forall i | i in fs && i != d :: i in fs' && fs'[i] == fs[i]
    requires !BelowFrom(fs, r, j, d)
    ensures !BelowFrom(fs', s, j, d)
    decreases r[j]
  {
    if fs[j].Child? {
      StaysOutside(fs, fs', r, s, d, fs[j].parent);
    }
  }

  lemma RenamedPath(fs: FileSystem, d: Ino, dest: Node, j: Ino)
    requires WellFormed(fs) && WellFormed(fs[d := dest]) && CanHang(fs, d, dest) && d in View(fs) && j in fs
    requires d in View(fs[d := dest])
    ensures j in View(fs) <==> j in View(fs[d := dest])
    ensures j in View(fs) ==> View(fs[d := dest])[j] == Rebase(View(fs)[d], View(fs[d := dest])[d], View(fs)[j])
  {
    EdgeChange(fs, d, dest, j);
    if Below(fs, j, d) {
      BelowIsPrefix(fs, RankOf(fs), j, d);
    }
  }

  lemma RenameForm(fs: FileSystem, d: Ino, dest: Node)
    requires WellFormed(fs) && CanHang(fs, d, dest) && d in View(fs) && fs[d].Child?
    requires dest.Child? && dest.parent in View(fs)
    ensures WellFormed(fs[d := dest]) && RootTexts(fs[d := dest]) == RootTexts(fs)
    ensures fs[d].parent in View(fs) && View(fs)[d] == Join(View(fs)[fs[d].parent], fs[d].name)
    ensures d in View(fs[d := dest]) && View(fs[d := dest])[d] == Join(View(fs)[dest.parent], dest.name)
  {
    EdgeChange(fs, d, dest, dest.parent);
    PathOfChild(fs, d);
    PathOfChild(fs[d := dest], d);
    RootTextsKept(fs, fs[d := dest], d);
  }

  /** An intra-tree rename rewrites the pathname of every monitored directory, and
      neither makes nor unmakes a root. */
  lemma RenameView(fs: FileSystem, d: Ino, dest: Node)
    requires WellFormed(fs) && CanHang(fs, d, dest) && d in View(fs) && fs[d].Child?
    requires dest.Child? && dest.parent in View(fs)
    ensures WellFormed(fs[d := dest])
    ensures View(fs[d := dest]).Keys == View(fs).Keys
    ensures forall i | i in View(fs) ::
              View(fs[d := dest])[i] == Rebase(View(fs)[d], Join(View(fs)[dest.parent], dest.name), View(fs)[i])
    ensures forall i | i in View(fs) ::
              View(fs[d := dest])[i] in RootTexts(fs) <==> View(fs)[i] in RootTexts(fs)
  {
    RenameForm(fs, d, dest);
    var fs' := fs[d := dest];
    forall j | j in View(fs) || j in View(fs')
      ensures j in View(fs) && j in View(fs')
      ensures View(fs')[j] == Rebase(View(fs)[d], View(fs')[d], View(fs)[j])
      ensures View(fs')[j] in RootTexts(fs) <==> View(fs)[j] in RootTexts(fs)
    {
      RenamedPath(fs, d, dest, j);
      RootByText(fs, j);
      RootByText(fs', j);
    }
  }

  /** A directory renamed away, root or not, takes exactly the directories under its pathname out of view. */
  lemma DetachView(fs: FileSystem, d: Ino, dest: Node)
    requires WellFormed(fs) && CanHang(fs, d, dest) && d in View(fs)
    requires dest.Elsewhere? || dest.parent !in View(fs)
    ensures WellFormed(fs[d := dest])
    ensures View(fs[d := dest]) == View(fs) - ViewUnder(View(fs), View(fs)[d]).Keys
    ensures RootTexts(fs[d := dest]) == RootTexts(fs) - (if fs[d].Root? then {fs[d].path} else {})
  {
    var fs' := fs[d := dest];
    HangKeepsForm(fs, d, dest);
    var rest := View(fs) - ViewUnder(View(fs), View(fs)[d]).Keys;
    forall j | j in View(fs') || j in rest
      ensures j in View(fs') && j in rest && View(fs')[j] == rest[j]
    {
      DetachedPath(fs, d, dest, j);
    }
    RootTextsLost(fs, fs', d);
  }

  lemma DetachedPath(fs: FileSystem, d: Ino, dest: Node, j: Ino)
    requires WellFormed(fs) && WellFormed(fs[d := dest]) && CanHang(fs, d, dest) && d in View(fs) && j in fs
    requires dest.Elsewhere? || dest.parent !in View(fs)
    ensures j in View(fs[d := dest]) <==> j in View(fs) && !InSubtree(View(fs)[d], View(fs)[j])
    ensures j in View(fs[d := dest]) ==> View(fs[d := dest])[j] == View(fs)[j]
  {
    if dest.Child? {
      EdgeChange(fs, d, dest, dest.parent);
    }
    PathOfChild(fs[d := dest], d);
    EdgeChange(fs, d, dest, j);
    if j in View(fs) {
      SubtreeTest(fs, j, d);
    }
  }

  lemma RootTextsLost(fs: FileSystem, fs': FileSystem, d: Ino)
    requires WellFormed(fs) && d in fs
    requires forall i | i in fs && i != d :: i in fs' && fs'[i] == fs[i]
    requires forall i | i in fs' :: i in fs && (i == d ==> !fs'[i].Root?)
    ensures RootTexts(fs') == RootTexts(fs) - (if fs[d].Root? then {fs[d].path} else {})
  {
    forall text | text in RootTexts(fs) && (fs[d].Root? ==> text != fs[d].path)
      ensures text in RootTexts(fs')
    {
      var i :| i in fs && fs[i].Root? && fs[i].path == text;
      assert fs'[i].Root?;
    }
    forall text | text in RootTexts(fs')
      ensures text in RootTexts(fs) && (fs[d].Root? ==> text != fs[d].path)
    {
      var i :| i in fs' && fs'[i].Root? && fs'[i].path == text;
      assert fs[i].Root? && i != d;
      if fs[d].Root? && fs[d].path == text {
        SamePath(fs, i, d);
      }
    }
  }

  lemma RemoveKeepsForm(fs: FileSystem, d: Ino)
    requires WellFormed(fs) && d in fs
    requires forall i | i in fs && fs[i].Child? :: fs[i].parent != d
    ensures WellFormed(fs - {d})
  {
    var fs' := fs - {d};
    assert Ranked(fs', RankOf(fs) - {d});
    forall i, j | i in fs' && j in fs'
      ensures Apart(fs', i, j)
    {
      assert Apart(fs, i, j);
    }
  }

  /** Removing an empty directory takes it alone out of view. */
  lemma RemoveView(fs: FileSystem, d: Ino)
    requires WellFormed(fs) && d in fs
    requires forall i | i in fs && fs[i].Child? :: fs[i].parent != d
    ensures WellFormed(fs - {d}) && View(fs - {d}) == View(fs) - {d}
    ensures RootTexts(fs - {d}) == RootTexts(fs) - (if fs[d].Root? then {fs[d].path} else {})
  {
    var fs' := fs - {d};
    RemoveKeepsForm(fs, d);
    forall j | j in fs'
      ensures PathOf(fs', j) == PathOf(fs, j)
    {
      LeafChange(fs, fs', d, j);
    }
    RootTextsLost(fs, fs', d);
  }
}
