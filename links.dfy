/**
 * What the classifier reports for entries of a concrete namespace: how `-h`
 * and the retry decide between describing a link and describing its target.
 */
module Links {

  import opened Wrappers
  import opened Filesystem
  import opened Namespace
  import opened Classifier

  /** A path that names nothing cannot be opened, whatever the flags. */
  lemma MissingPath(t: Tree, p: Path, symlinks: bool, ignoremagic: bool)
    requires p !in t
    ensures File(OracleOf(t), p, symlinks, ignoremagic).description == CannotOpen
  {
    CannotOpenExactly(OracleOf(t), p, symlinks, ignoremagic);
  }

  /** The lstat answer for a link is a link mode. */
  lemma LinkModeIsLink()
    ensures IsSymlink(LinkMode)
  {
    assert TypeBits(LinkMode) == SymlinkType;
  }

  /** Without `-h`, a link that resolves is described exactly as its target is. */
  lemma LiveLinkDescribesTarget(t: Tree, p: Path, ignoremagic: bool)
    requires WellFormed(t)
    requires p in t && t[p].SymlinkNode?
    requires Resolve(t, p, SymloopMax).Some?
    ensures var fs := OracleOf(t);
            File(fs, p, false, ignoremagic).description == File(fs, t[p].target, false, ignoremagic).description
            && !IsLinkLabel(File(fs, p, false, ignoremagic).description)
  {
    var fs := OracleOf(t);
    var q := t[p].target;
    ResolveMonotone(t, q, SymloopMax - 1, SymloopMax);
    assert fs.stat[p] == fs.stat[q];
    ResolveNeverLink(t, p, SymloopMax);
    KindOfTests(fs.stat[p]);
    FileDescribes(fs, p, false, ignoremagic);
    FileDescribes(fs, q, false, ignoremagic);
    LinkOnlyThroughLstat(fs, p, false, ignoremagic);
  }

  /** Without `-h`, a dangling or looping link falls back to lstat and is described as a link. */
  lemma DanglingLinkDescribed(t: Tree, p: Path, ignoremagic: bool)
    requires p in t && t[p].SymlinkNode? && '\0' !in t[p].target
    requires Resolve(t, p, SymloopMax).None?
    ensures File(OracleOf(t), p, false, ignoremagic).description == LinkDescriptionOf(t[p].target)
  {
    LinkModeIsLink();
    LinkDescription(OracleOf(t), p, false, ignoremagic);
  }

  /** With `-h` a link is never followed: it is described as a link, live or not. */
  lemma HDescribesLinkItself(t: Tree, p: Path, ignoremagic: bool)
    requires p in t && t[p].SymlinkNode? && '\0' !in t[p].target
    ensures File(OracleOf(t), p, true, ignoremagic).description == LinkDescriptionOf(t[p].target)
  {
    LinkModeIsLink();
    LinkDescription(OracleOf(t), p, true, ignoremagic);
  }

  /** For an entry that is not a link, `-h` changes nothing. */
  lemma HIrrelevantForInodes(t: Tree, p: Path, ignoremagic: bool)
    requires WellFormed(t) && p in t && t[p].Inode?
    ensures File(OracleOf(t), p, true, ignoremagic).description
            == File(OracleOf(t), p, false, ignoremagic).description
  {
    var fs := OracleOf(t);
    FileDescribes(fs, p, true, ignoremagic);
    FileDescribes(fs, p, false, ignoremagic);
  }

  /** A regular file `/tmp/a` and a link `/tmp/b` to it. */
  function TmpTree(): Tree
  {
    map["/tmp/a" := Inode(RegularType + 0x1A4), "/tmp/b" := SymlinkNode("/tmp/a")]
  }

  lemma TmpTreeShape()
    ensures WellFormed(TmpTree())
    ensures "/tmp/a" in TmpTree() && TmpTree()["/tmp/a"] == Inode(RegularType + 0x1A4)
    ensures "/tmp/b" in TmpTree() && TmpTree()["/tmp/b"] == SymlinkNode("/tmp/a")
    ensures "/tmp/does-not-exist" !in TmpTree()
  {
    var t := TmpTree();
    assert TypeBits(RegularType + 0x1A4) == RegularType;
    assert "/tmp/b"[5] != "/tmp/a"[5];
    assert "/tmp/does-not-exist"[5] != "/tmp/a"[5];
    assert "/tmp/does-not-exist"[5] != "/tmp/b"[5];
  }

  /** The empty regular file is a data file, and so is the link to it when followed. */
  lemma TmpFileIsData()
    ensures File(OracleOf(TmpTree()), "/tmp/a", false, false).description == DataFile
    ensures File(OracleOf(TmpTree()), "/tmp/b", false, false).description == DataFile
  {
    var t := TmpTree();
    TmpTreeShape();
    var fs := OracleOf(t);
    assert Resolve(t, "/tmp/a", SymloopMax) == Some(RegularType + 0x1A4);
    assert fs.stat["/tmp/a"] == RegularType + 0x1A4;
    assert IsRegular(RegularType + 0x1A4);
    IgnoreMagicOnlyRegular(fs, "/tmp/a", false);
    assert Resolve(t, "/tmp/b", SymloopMax) == Resolve(t, "/tmp/a", SymloopMax - 1);
    LiveLinkDescribesTarget(t, "/tmp/b", false);
  }

  /** With `-h` the link is described as a link; a missing path cannot be opened. */
  lemma TmpLinkWithH()
    ensures File(OracleOf(TmpTree()), "/tmp/b", true, false).description == "symbolic link to /tmp/a"
    ensures File(OracleOf(TmpTree()), "/tmp/does-not-exist", false, false).description == CannotOpen
  {
    TmpTreeShape();
    HDescribesLinkItself(TmpTree(), "/tmp/b", false);
    MissingPath(TmpTree(), "/tmp/does-not-exist", false, false);
  }
}
