/**
 * What the aggregate document promises: exactly the non-directory entries
 * the pruned top-down walk reaches get a section, each carrying what
 * reading that file gave; nothing below an excluded or unreadable
 * directory appears, in the tree or in the sections; the tree and the
 * sections name the same regular files; a dangling link or a socket gets
 * a banner and no line in the tree; in a tree with distinct names per
 * directory each entry gets at most one section; a directory's own files
 * come first, in listing order, and each subdirectory's walk is written as
 * one run, in `dirs` order.
 */
module AggregateProps {
  import opened Wrappers
  import opened Text
  import opened Glob
  import opened Fs
  import opened Seqs
  import opened TreeRender
  import opened TreeProps
  import opened Aggregate

  /** The inner loop writes a section for exactly the kept files, each with its own path and content. */
  lemma {:induction false} FileSectionsMember(files: seq<Node>, ex: Exclusions, path: seq<string>, s: Section)
    ensures s in FileSections(files, ex, path) <==>
      exists f :: f in files && !FileExcluded(f, ex) && s == Section(path + [f.name], ReadText(f))
    decreases |files|
  {
    if |files| > 0 {
      var init := files[..|files| - 1];
      var f := files[|files| - 1];
      FileSectionsMember(init, ex, path, s);
      assert files == init + [f];
      if exists g :: g in files && !FileExcluded(g, ex) && s == Section(path + [g.name], ReadText(g)) {
        var g :| g in files && !FileExcluded(g, ex) && s == Section(path + [g.name], ReadText(g));
        if g != f {
          assert g in init;
        }
      }
    }
  }

  /** A section of a directory's walk comes from its own files or from one kept subdirectory's walk. */
  lemma InWalkSections(d: Node, ex: Exclusions, path: seq<string>, s: Section) returns (inFiles: bool, k: nat)
    requires d.Dir? && s in WalkSections(d, ex, path)
    ensures d.readable
    ensures inFiles ==> s in FileSections(WalkFiles(d), ex, path)
    ensures !inFiles ==> (k < |PrunedDirs(d, ex)| && PrunedDirs(d, ex)[k] in d.children
      && s in WalkSections(PrunedDirs(d, ex)[k], ex, path + [PrunedDirs(d, ex)[k].name]))
  {
    k := 0;
    var bs := SubdirSections(d, ex, path);
    inFiles := s in FileSections(WalkFiles(d), ex, path);
    if !inFiles {
      ConcatMember(bs, s);
      k :| 0 <= k < |bs| && s in bs[k];
      assert PrunedDirs(d, ex)[k] in PrunedDirs(d, ex);
    }
  }

  lemma OwnFileInWalk(d: Node, ex: Exclusions, path: seq<string>, s: Section)
    requires d.Dir? && d.readable && s in FileSections(WalkFiles(d), ex, path)
    ensures s in WalkSections(d, ex, path)
  {
  }

  lemma SubdirInWalk(d: Node, ex: Exclusions, path: seq<string>, c: Node, s: Section)
    requires d.Dir? && d.readable && c in PrunedDirs(d, ex)
    requires s in WalkSections(c, ex, path + [c.name])
    ensures s in WalkSections(d, ex, path)
  {
    var dirs := PrunedDirs(d, ex);
    var k :| 0 <= k < |dirs| && dirs[k] == c;
    var bs := SubdirSections(d, ex, path);
    assert s in bs[k];
    ConcatMember(bs, s);
  }

  /**
   * Every section names a non-directory entry the walk reaches without
   * entering an excluded or unreadable directory, whose name matches no
   * `exclude_exts` pattern, and carries what reading it gave.
   */
  lemma {:induction false} SectionsSound(d: Node, ex: Exclusions, path: seq<string>, s: Section)
    requires d.Dir? && s in WalkSections(d, ex, path)
    ensures |path| < |s.path| && s.path[..|path|] == path
    ensures exists leaf :: (Reaches(d, s.path[|path|..], ex, leaf) && !leaf.Dir? && !FileExcluded(leaf, ex)
      && s.content == ReadText(leaf))
    decreases d
  {
    var inFiles, k := InWalkSections(d, ex, path, s);
    if inFiles {
      FileSectionsMember(WalkFiles(d), ex, path, s);
      var f :| f in WalkFiles(d) && !FileExcluded(f, ex) && s == Section(path + [f.name], ReadText(f));
      assert s.path[..|path|] == path && s.path[|path|..] == [f.name];
      ReachesChild(d, ex, f);
    } else {
      var c := PrunedDirs(d, ex)[k];
      SectionsSound(c, ex, path + [c.name], s);
      var leaf :| Reaches(c, s.path[|path| + 1..], ex, leaf) && !leaf.Dir? && !FileExcluded(leaf, ex)
        && s.content == ReadText(leaf);
      PrefixStep(s.path, path, c.name);
      ReachesStep(d, c, s.path[|path| + 1..], ex, leaf);
    }
  }

  /** Every non-directory entry the walk reaches, unless its name is excluded, gets a section. */
  lemma {:induction false} SectionsComplete(d: Node, ex: Exclusions, path: seq<string>, t: seq<string>, leaf: Node)
    requires d.Dir? && Reaches(d, t, ex, leaf) && !leaf.Dir? && !FileExcluded(leaf, ex)
    ensures exists s :: (s in WalkSections(d, ex, path) && s.path == path + t && s.content == ReadText(leaf))
    decreases |t|
  {
    var c := ReachesFirst(d, t, ex, leaf);
    if |t| == 1 {
      var s := Section(path + [c.name], ReadText(c));
      FileSectionsMember(WalkFiles(d), ex, path, s);
      OwnFileInWalk(d, ex, path, s);
      assert t == [c.name];
    } else {
      assert c in PrunedDirs(d, ex);
      var sub := path + [c.name];
      SectionsComplete(c, ex, sub, t[1..], leaf);
      var s :| s in WalkSections(c, ex, sub) && s.path == sub + t[1..] && s.content == ReadText(leaf);
      SubdirInWalk(d, ex, path, c, s);
      AppendFirst(path, t);
    }
  }

  /**
   * The inner loop's sections, position by position: one per file that
   * matches no `exclude_exts` pattern, in the order of `files`.
   */
  lemma {:induction false} FileSectionsListing(files: seq<Node>, ex: Exclusions, path: seq<string>)
    ensures var kept := Filter(files, NotExcludedFile(ex));
      var ss := FileSections(files, ex, path);
      |ss| == |kept| && forall k :: 0 <= k < |kept| ==> ss[k] == Section(path + [kept[k].name], ReadText(kept[k]))
    decreases |files|
  {
    if |files| > 0 {
      var init := files[..|files| - 1];
      var f := files[|files| - 1];
      assert files == init + [f];
      FilterSnoc(init, f, NotExcludedFile(ex));
      FileSectionsListing(init, ex, path);
    }
  }

  /** The files the inner loop writes, from a listing split in two: those of the first part, then those of the second. */
  lemma KeptFilesSplit(d: Node, j: nat, ex: Exclusions)
    requires d.Dir? && j <= |d.children|
    ensures Filter(WalkFiles(d), NotExcludedFile(ex))
      == Filter(Filter(d.children[..j], IsNotDir()), NotExcludedFile(ex)) + Filter(Filter(d.children[j..], IsNotDir()), NotExcludedFile(ex))
  {
    var c := d.children;
    assert c == c[..j] + c[j..];
    FilterAppend(c[..j], c[j..], IsNotDir());
    FilterAppend(Filter(c[..j], IsNotDir()), Filter(c[j..], IsNotDir()), NotExcludedFile(ex));
  }

  /**
   * A directory's own files are written in listing order: of two kept
   * non-directories, the one listed first has the earlier section.
   */
  lemma OwnSectionsInListingOrder(d: Node, ex: Exclusions, path: seq<string>, i: nat, j: nat)
    requires d.Dir? && i < j < |d.children|
    requires !d.children[i].Dir? && !FileExcluded(d.children[i], ex)
    requires !d.children[j].Dir? && !FileExcluded(d.children[j], ex)
    ensures var ss := FileSections(WalkFiles(d), ex, path);
      var x, y := d.children[i], d.children[j];
      exists a, b :: (0 <= a < b < |ss| && ss[a] == Section(path + [x.name], ReadText(x))
        && ss[b] == Section(path + [y.name], ReadText(y)))
  {
    var c := d.children;
    var x, y := c[i], c[j];
    var front := Filter(Filter(c[..j], IsNotDir()), NotExcludedFile(ex));
    var back := Filter(Filter(c[j..], IsNotDir()), NotExcludedFile(ex));
    KeptFilesSplit(d, j, ex);
    assert c[..j][i] == x && c[j..][0] == y;
    assert x in front && y in back;
    var a, b := PositionsAcross(front, back, x, y);
    KeptPairSections(WalkFiles(d), ex, path, a, b, x, y);
  }

  /** Two kept files at positions `a < b` have their sections at those same positions. */
  lemma KeptPairSections(files: seq<Node>, ex: Exclusions, path: seq<string>, a: nat, b: nat, x: Node, y: Node)
    requires var kept := Filter(files, NotExcludedFile(ex)); a < b < |kept| && kept[a] == x && kept[b] == y
    ensures var ss := FileSections(files, ex, path);
      exists a, b :: (0 <= a < b < |ss| && ss[a] == Section(path + [x.name], ReadText(x))
        && ss[b] == Section(path + [y.name], ReadText(y)))
  {
    KeptSection(files, ex, path, a);
    KeptSection(files, ex, path, b);
  }

  /** The `k`-th section the inner loop writes is that of the `k`-th kept file. */
  lemma KeptSection(files: seq<Node>, ex: Exclusions, path: seq<string>, k: nat)
    requires k < |Filter(files, NotExcludedFile(ex))|
    ensures var kept := Filter(files, NotExcludedFile(ex));
      k < |FileSections(files, ex, path)| && FileSections(files, ex, path)[k] == Section(path + [kept[k].name], ReadText(kept[k]))
  {
    FileSectionsListing(files, ex, path);
  }

  /** An element of the first part sits before an element of the second. */
  lemma PositionsAcross(front: seq<Node>, back: seq<Node>, x: Node, y: Node) returns (a: nat, b: nat)
    requires x in front && y in back
    ensures a < b < |front + back| && (front + back)[a] == x && (front + back)[b] == y
  {
    a :| 0 <= a < |front| && front[a] == x;
    var b' :| 0 <= b' < |back| && back[b'] == y;
    b := |front| + b';
  }

  function SectionPath(): Section -> seq<string>
  {
    (s: Section) => s.path
  }

  /** The inner loop's sections for files of distinct names have distinct paths, each one name below `path`. */
  lemma FileSectionsDistinct(files: seq<Node>, ex: Exclusions, path: seq<string>)
    requires UniqueNames(files)
    ensures DistinctBy(FileSections(files, ex, path), SectionPath())
    ensures forall s :: s in FileSections(files, ex, path) ==> |s.path| == |path| + 1
  {
    var kept := Filter(files, NotExcludedFile(ex));
    var ss := FileSections(files, ex, path);
    FileSectionsListing(files, ex, path);
    FilterUnique(files, NotExcludedFile(ex));
    forall i, j | 0 <= i < j < |ss| ensures SectionPath()(ss[i]) != SectionPath()(ss[j]) {
      assert ss[i].path[|path|] == kept[i].name && ss[j].path[|path|] == kept[j].name;
    }
  }

  /** Every section of subdirectory `k`'s walk lies below that subdirectory. */
  lemma SubdirBlockPaths(d: Node, ex: Exclusions, path: seq<string>, k: nat, s: Section)
    requires d.Dir? && k < |PrunedDirs(d, ex)| && s in SubdirSections(d, ex, path)[k]
    ensures |s.path| > |path| + 1 && s.path[|path|] == PrunedDirs(d, ex)[k].name
  {
    var c := PrunedDirs(d, ex)[k];
    assert c in PrunedDirs(d, ex);
    assert SubdirSections(d, ex, path)[k] == WalkSections(c, ex, path + [c.name]);
    SectionsSound(c, ex, path + [c.name], s);
    assert s.path[|path|] == s.path[..|path| + 1][|path|];
  }

  /** In a well-formed tree the pruned subdirectories have distinct names. */
  lemma PrunedDirsUnique(d: Node)
    requires d.Dir? && WellFormed(d)
    ensures forall ex :: UniqueNames(PrunedDirs(d, ex))
  {
    forall ex ensures UniqueNames(PrunedDirs(d, ex)) {
      FilterUnique(d.children, IsDir());
      FilterUnique(Filter(d.children, IsDir()), NotExcludedDir(ex));
    }
  }

  /** The walks of two different subdirectories share no path. */
  lemma SubdirsApart(d: Node, ex: Exclusions, path: seq<string>)
    requires d.Dir? && WellFormed(d)
    ensures ApartBy(SubdirSections(d, ex, path), SectionPath())
  {
    var bs := SubdirSections(d, ex, path);
    PrunedDirsUnique(d);
    forall k, l, x, y | 0 <= k < l < |bs| && x in bs[k] && y in bs[l] ensures SectionPath()(x) != SectionPath()(y) {
      SubdirBlockPaths(d, ex, path, k, x);
      SubdirBlockPaths(d, ex, path, l, y);
    }
  }

  /**
   * In a well-formed tree no two sections share a path: the walk writes
   * each file it reaches at most once.
   */
  lemma {:induction false} SectionsDistinct(d: Node, ex: Exclusions, path: seq<string>)
    requires d.Dir? && WellFormed(d)
    ensures DistinctBy(WalkSections(d, ex, path), SectionPath())
    decreases d
  {
    if d.readable {
      var own := FileSections(WalkFiles(d), ex, path);
      var bs := SubdirSections(d, ex, path);
      FilterUnique(d.children, IsNotDir());
      FileSectionsDistinct(WalkFiles(d), ex, path);
      forall k | 0 <= k < |bs| ensures DistinctBy(bs[k], SectionPath()) {
        var c := PrunedDirs(d, ex)[k];
        assert c in PrunedDirs(d, ex);
        SectionsDistinct(c, ex, path + [c.name]);
      }
      SubdirsApart(d, ex, path);
      ConcatDistinct(bs, SectionPath());
      forall x, y | x in own && y in Concat(bs) ensures SectionPath()(x) != SectionPath()(y) {
        ConcatMember(bs, y);
        var l :| 0 <= l < |bs| && y in bs[l];
        SubdirBlockPaths(d, ex, path, l, y);
      }
      DistinctAppend(own, Concat(bs), SectionPath());
    }
  }

  /**
   * In a well-formed tree every non-directory the walk reaches, unless its
   * name is excluded, gets exactly one section, carrying what reading it
   * gave.
   */
  lemma SectionsOnePerPath(root: Node, ex: Exclusions, t: seq<string>, leaf: Node)
    requires root.Dir? && WellFormed(root) && Reaches(root, t, ex, leaf) && !leaf.Dir? && !FileExcluded(leaf, ex)
    ensures var ws := WalkSections(root, ex, []);
      exists i :: (0 <= i < |ws| && ws[i].path == t && ws[i].content == ReadText(leaf)
        && forall j :: 0 <= j < |ws| && ws[j].path == t ==> j == i)
  {
    var ws := WalkSections(root, ex, []);
    SectionsComplete(root, ex, [], t, leaf);
    assert [] + t == t;
    var s :| s in ws && s.path == t && s.content == ReadText(leaf);
    var i :| 0 <= i < |ws| && ws[i] == s;
    SectionsDistinct(root, ex, []);
    assert forall j :: 0 <= j < |ws| && j != i ==> SectionPath()(ws[j]) != SectionPath()(ws[i]);
    assert forall j :: 0 <= j < |ws| && ws[j].path == t ==> j == i;
  }

  /** A directory's own files are written before anything below its subdirectories. */
  lemma OwnFilesFirst(d: Node, ex: Exclusions, path: seq<string>, i: nat, j: nat)
    requires d.Dir? && i < j < |WalkSections(d, ex, path)| && |WalkSections(d, ex, path)[j].path| == |path| + 1
    ensures |WalkSections(d, ex, path)[i].path| == |path| + 1
  {
    var ws := WalkSections(d, ex, path);
    var own := FileSections(WalkFiles(d), ex, path);
    var bs := SubdirSections(d, ex, path);
    assert ws == own + Concat(bs);
    if j >= |own| {
      assert ws[j] == Concat(bs)[j - |own|];
      ConcatMember(bs, ws[j]);
      var l :| 0 <= l < |bs| && ws[j] in bs[l];
      SubdirBlockPaths(d, ex, path, l, ws[j]);
      assert false;
    }
    assert ws[i] == own[i];
    FileSectionsMember(WalkFiles(d), ex, path, own[i]);
  }

  /** A section deeper than the directory's own files sits in the run of one subdirectory's walk. */
  lemma SubdirRun(d: Node, ex: Exclusions, path: seq<string>, i: nat) returns (k: nat)
    requires d.Dir? && i < |WalkSections(d, ex, path)| && |WalkSections(d, ex, path)[i].path| > |path| + 1
    ensures var own := FileSections(WalkFiles(d), ex, path);
      var bs := SubdirSections(d, ex, path);
      k < |bs| && |own| + Offset(bs, k) <= i < |own| + Offset(bs, k + 1)
      && WalkSections(d, ex, path)[i].path[|path|] == PrunedDirs(d, ex)[k].name
  {
    var ws := WalkSections(d, ex, path);
    var own := FileSections(WalkFiles(d), ex, path);
    var bs := SubdirSections(d, ex, path);
    assert ws == own + Concat(bs);
    if i < |own| {
      assert ws[i] == own[i];
      FileSectionsMember(WalkFiles(d), ex, path, own[i]);
      assert false;
    }
    assert ws[i] == Concat(bs)[i - |own|];
    k := ConcatIndex(bs, i - |own|);
    assert ws[i] in bs[k];
    SubdirBlockPaths(d, ex, path, k, ws[i]);
  }

  /**
   * Each kept subdirectory's walk is written as one run, in `dirs` order:
   * a later section below a subdirectory never belongs to an earlier one.
   */
  lemma SubdirWalksInOrder(d: Node, ex: Exclusions, path: seq<string>, i: nat, j: nat, k: nat, l: nat)
    requires d.Dir? && WellFormed(d) && i < j < |WalkSections(d, ex, path)|
    requires k < |PrunedDirs(d, ex)| && l < |PrunedDirs(d, ex)|
    requires var ws := WalkSections(d, ex, path);
      |ws[i].path| > |path| + 1 && ws[i].path[|path|] == PrunedDirs(d, ex)[k].name
      && |ws[j].path| > |path| + 1 && ws[j].path[|path|] == PrunedDirs(d, ex)[l].name
    ensures k <= l
  {
    var bs := SubdirSections(d, ex, path);
    var dirs := PrunedDirs(d, ex);
    var ki := SubdirRun(d, ex, path, i);
    var kj := SubdirRun(d, ex, path, j);
    PrunedDirsUnique(d);
    assert UniqueNames(dirs);
    assert ki == k && kj == l;
    if l < k {
      OffsetMonotone(bs, kj + 1, ki);
      assert false;
    }
  }

  /** The directories `dirs` keeps, from a listing split in two: those of the first part, then those of the second. */
  lemma PrunedDirsSplit(d: Node, j: nat, ex: Exclusions)
    requires d.Dir? && j <= |d.children|
    ensures PrunedDirs(d, ex)
      == Filter(Filter(d.children[..j], IsDir()), NotExcludedDir(ex)) + Filter(Filter(d.children[j..], IsDir()), NotExcludedDir(ex))
  {
    var c := d.children;
    assert c == c[..j] + c[j..];
    FilterAppend(c[..j], c[j..], IsDir());
    FilterAppend(Filter(c[..j], IsDir()), Filter(c[j..], IsDir()), NotExcludedDir(ex));
  }

  /**
   * Pruning keeps the listing order of the subdirectories: of two kept
   * directories, the one listed first comes first in `dirs`, so by
   * `SubdirWalksInOrder` its walk is written first.
   */
  lemma DirsInListingOrder(d: Node, ex: Exclusions, i: nat, j: nat)
    requires d.Dir? && i < j < |d.children|
    requires d.children[i].Dir? && !DirExcluded(d.children[i], ex)
    requires d.children[j].Dir? && !DirExcluded(d.children[j], ex)
    ensures var dirs := PrunedDirs(d, ex);
      exists a, b :: 0 <= a < b < |dirs| && dirs[a] == d.children[i] && dirs[b] == d.children[j]
  {
    var c := d.children;
    var x, y := c[i], c[j];
    var front := Filter(Filter(c[..j], IsDir()), NotExcludedDir(ex));
    var back := Filter(Filter(c[j..], IsDir()), NotExcludedDir(ex));
    PrunedDirsSplit(d, j, ex);
    assert c[..j][i] == x && c[j..][0] == y;
    assert x in front && y in back;
    var a, b := PositionsAcross(front, back, x, y);
    assert PrunedDirs(d, ex)[a] == x && PrunedDirs(d, ex)[b] == y;
  }

  /** In a well-formed tree, a walk that reaches the path `t` reaches the node that is there. */
  lemma ReachesWhatIsAt(d: Node, t: seq<string>, ex: Exclusions, n: Node, leaf: Node)
    requires WellFormed(d) && At(d, t, n) && Reaches(d, t, ex, leaf)
    ensures leaf == n
  {
    assert t + [] == t;
    ReachesThrough(d, t, [], ex, n, leaf);
  }

  /** A line at the path of node `n` shows `n`, which is then a kept directory or a kept regular file. */
  lemma RowAtPath(root: Node, ex: Exclusions, t: seq<string>, n: Node, r: Row)
    requires root.Dir? && WellFormed(root) && At(root, t, n)
    requires r in Rows(root, ex, [], "") && r.path == t
    ensures TreeShown(n, ex) && r.name == n.name && r.isDir == n.Dir?
  {
    RowsSound(root, ex, [], "", r);
    assert r.path[0..] == t;
    var leaf :| Reaches(root, t, ex, leaf) && TreeShown(leaf, ex) && leaf.name == r.name && leaf.Dir? == r.isDir;
    ReachesWhatIsAt(root, t, ex, n, leaf);
  }

  /**
   * A line strictly below the path of node `n` means the walk entered `n`:
   * nothing under an excluded directory, or one whose listing is refused,
   * appears in the tree.
   */
  lemma RowBelowPath(root: Node, ex: Exclusions, t: seq<string>, u: seq<string>, n: Node, r: Row)
    requires root.Dir? && WellFormed(root) && At(root, t, n) && |t| > 0 && u != []
    requires r in Rows(root, ex, [], "") && r.path == t + u
    ensures n.Dir? && n.readable && !DirExcluded(n, ex)
  {
    RowsSound(root, ex, [], "", r);
    assert r.path[0..] == t + u;
    var leaf :| Reaches(root, t + u, ex, leaf) && TreeShown(leaf, ex) && leaf.name == r.name && leaf.Dir? == r.isDir;
    ReachesThrough(root, t, u, ex, n, leaf);
  }

  /** A section at the path of node `n` is for a kept non-directory and holds what reading `n` gave. */
  lemma SectionAtPath(root: Node, ex: Exclusions, t: seq<string>, n: Node, s: Section)
    requires root.Dir? && WellFormed(root) && At(root, t, n)
    requires s in WalkSections(root, ex, []) && s.path == t
    ensures !n.Dir? && !FileExcluded(n, ex) && s.content == ReadText(n)
  {
    SectionsSound(root, ex, [], s);
    assert s.path[0..] == t;
    var leaf :| Reaches(root, t, ex, leaf) && !leaf.Dir? && !FileExcluded(leaf, ex) && s.content == ReadText(leaf);
    ReachesWhatIsAt(root, t, ex, n, leaf);
  }

  /** A section strictly below the path of node `n` means the walk entered `n`: pruned directories are not walked. */
  lemma SectionBelowPath(root: Node, ex: Exclusions, t: seq<string>, u: seq<string>, n: Node, s: Section)
    requires root.Dir? && WellFormed(root) && At(root, t, n) && |t| > 0 && u != []
    requires s in WalkSections(root, ex, []) && s.path == t + u
    ensures n.Dir? && n.readable && !DirExcluded(n, ex)
  {
    SectionsSound(root, ex, [], s);
    assert s.path[0..] == t + u;
    var leaf :| Reaches(root, t + u, ex, leaf) && !leaf.Dir? && !FileExcluded(leaf, ex) && s.content == ReadText(leaf);
    ReachesThrough(root, t, u, ex, n, leaf);
  }

  /** The entry a top-level row stands for, reached along the row's path. */
  lemma RowLeaf(root: Node, ex: Exclusions, r: Row) returns (leaf: Node)
    requires root.Dir? && r in Rows(root, ex, [], "")
    ensures Reaches(root, r.path, ex, leaf) && TreeShown(leaf, ex)
  {
    RowsSound(root, ex, [], "", r);
    assert r.path[0..] == r.path;
    leaf :| Reaches(root, r.path, ex, leaf) && TreeShown(leaf, ex) && leaf.name == r.name && leaf.Dir? == r.isDir;
  }

  /** A regular file with a line in the tree has a section in the document. */
  lemma RowGivesSection(root: Node, ex: Exclusions, t: seq<string>, n: Node, r: Row)
    requires root.Dir? && WellFormed(root) && At(root, t, n) && n.File?
    requires r in Rows(root, ex, [], "") && r.path == t
    ensures exists s :: s in WalkSections(root, ex, []) && s.path == t
  {
    var leaf := RowLeaf(root, ex, r);
    ReachesWhatIsAt(root, t, ex, n, leaf);
    assert !FileExcluded(n, ex);
    SectionsComplete(root, ex, [], t, n);
    var s :| s in WalkSections(root, ex, []) && s.path == [] + t && s.content == ReadText(n);
    assert s.path == t;
  }

  /** A regular file with a section in the document has a line in the tree. */
  lemma SectionGivesRow(root: Node, ex: Exclusions, t: seq<string>, n: Node, s: Section)
    requires root.Dir? && WellFormed(root) && At(root, t, n) && n.File?
    requires s in WalkSections(root, ex, []) && s.path == t
    ensures exists r :: r in Rows(root, ex, [], "") && r.path == t
  {
    SectionsSound(root, ex, [], s);
    assert s.path[0..] == t && [] + t == t;
    var leaf :| Reaches(root, t, ex, leaf) && !leaf.Dir? && !FileExcluded(leaf, ex) && s.content == ReadText(leaf);
    ReachesWhatIsAt(root, t, ex, n, leaf);
    RowsComplete(root, ex, [], "", t, n);
  }

  /**
   * For a regular file of a well-formed tree, the tree has a line for it
   * exactly when the document has a section for it: both walks prune the
   * same directories and skip the same names. A directory here is either
   * both listable and enterable or neither (one `readable` flag).
   */
  lemma TreeAndSectionsAgree(root: Node, ex: Exclusions, t: seq<string>, n: Node)
    requires root.Dir? && WellFormed(root) && At(root, t, n) && n.File?
    ensures (exists r :: r in Rows(root, ex, [], "") && r.path == t)
      <==> (exists s :: s in WalkSections(root, ex, []) && s.path == t)
  {
    if exists r :: r in Rows(root, ex, [], "") && r.path == t {
      var r :| r in Rows(root, ex, [], "") && r.path == t;
      RowGivesSection(root, ex, t, n, r);
    }
    if exists s :: s in WalkSections(root, ex, []) && s.path == t {
      var s :| s in WalkSections(root, ex, []) && s.path == t;
      SectionGivesRow(root, ex, t, n, s);
    }
  }

  /**
   * A `Special` entry the walk reaches (a dangling link or a socket:
   * neither a directory nor a regular file) has no line in the tree, yet
   * gets a section holding only its banner, since opening it fails.
   */
  lemma SpecialFileBannerOnly(root: Node, ex: Exclusions, t: seq<string>, n: Node)
    requires root.Dir? && WellFormed(root) && At(root, t, n) && n.Special?
    requires Reaches(root, t, ex, n) && !FileExcluded(n, ex)
    ensures forall r :: r in Rows(root, ex, [], "") ==> r.path != t
    ensures exists s :: s in WalkSections(root, ex, []) && s.path == t && SectionText(s) == Header(RelPath(t))
  {
    forall r | r in Rows(root, ex, [], "") ensures r.path != t {
      if r.path == t {
        RowAtPath(root, ex, t, n, r);
      }
    }
    SectionsComplete(root, ex, [], t, n);
    assert [] + t == t;
    var s :| s in WalkSections(root, ex, []) && s.path == t && s.content == ReadText(n);
    assert SectionText(s) == Header(RelPath(t)) + "";
  }

  /**
   * A regular file the walk reaches whose read fails (it does not decode,
   * or opening it raises) still has its line in the tree, and its section
   * holds only its banner: the banner is written before the read.
   */
  lemma FailedReadBannerOnly(root: Node, ex: Exclusions, t: seq<string>, n: Node)
    requires root.Dir? && n.File? && !n.content.Decoded?
    requires Reaches(root, t, ex, n) && !FileExcluded(n, ex)
    ensures exists r :: r in Rows(root, ex, [], "") && r.path == t && r.name == n.name && !r.isDir
    ensures exists s :: s in WalkSections(root, ex, []) && s.path == t && SectionText(s) == Header(RelPath(t))
  {
    assert [] + t == t;
    RowsComplete(root, ex, [], "", t, n);
    SectionsComplete(root, ex, [], t, n);
    var s :| s in WalkSections(root, ex, []) && s.path == t && s.content == ReadText(n);
    assert SectionText(s) == Header(RelPath(t)) + "";
  }

  /** A root whose listing is refused gives the heading, the root's line, the rule and nothing else. */
  lemma UnreadableRootDocument(root: Node, ex: Exclusions)
    requires root.Dir? && !root.readable
    ensures Document(root, ex) == "Directory Tree:\n" + root.name + "/" + ("\n\n" + Rule() + "\n\n")
  {
    assert |EntriesOf(root, ex)| == 0;
    EmptyRootTree(root, ex);
    assert SectionsText([]) == "";
  }

  /** The relative path in a banner splits back into the names of the file's path, when no name holds `/`. */
  lemma RelPathSplits(p: seq<string>)
    requires |p| >= 1 && forall k :: 0 <= k < |p| ==> '/' !in p[k]
    ensures Split(RelPath(p), '/') == p
  {
    SplitJoin(p, '/');
  }
}
