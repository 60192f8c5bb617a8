/**
 * The aggregate document `merge_code_files` writes: the heading, the
 * rendered tree, a rule, then one section per file the top-down
 * `os.walk` visits, in the order it visits them.  `WalkSections` is the
 * specification: the sections, each with the name path of its file and
 * what reading it gave.  `WalkAndWrite` is the walk fused with the loop
 * that consumes it, writing to an `OutputFile`; its contract ties what it
 * writes to `WalkSections`.
 */
module Aggregate {
  import opened Wrappers
  import opened Text
  import opened Glob
  import opened Fs
  import opened Seqs
  import opened TreeRender

  /** `"=" * 40`. */
  function Rule(): (r: string)
    ensures |r| == 40 && forall k :: 0 <= k < 40 ==> r[k] == '='
  {
    Repeat('=', 40)
  }

  /** The relative path of the file at name path `p` below the root: the names joined with `/`. */
  function RelPath(p: seq<string>): string
  {
    Join(p, "/")
  }

  /** The banner written before each file. */
  function Header(relPath: string): string
  {
    "\n" + Rule() + "\nFile: " + relPath + "\n" + Rule() + "\n\n"
  }

  /**
   * What reading the file as UTF-8 text gives; `None` where opening or
   * decoding raises (a directory never gets here; opening a dangling link
   * or a socket raises).
   */
  function ReadText(n: Node): (r: Option<string>)
    ensures r.Some? <==> n.File? && n.content.Decoded?
    ensures r.Some? ==> r.value == n.content.text
  {
    if n.File? && n.content.Decoded? then Some(n.content.text) else None
  }

  /** One file's part of the document: its name path and what reading it gave. */
  datatype Section = Section(path: seq<string>, content: Option<string>)

  /** The banner, then the content and a newline when the read succeeded. */
  function SectionText(s: Section): string
  {
    Header(RelPath(s.path)) + (if s.content.Some? then s.content.value + "\n" else "")
  }

  function SectionsText(ss: seq<Section>): string
  {
    Concat(seq(|ss|, k requires 0 <= k < |ss| => SectionText(ss[k])))
  }

  lemma SectionsTextAppend(a: seq<Section>, b: seq<Section>)
    ensures SectionsText(a + b) == SectionsText(a) + SectionsText(b)
  {
    var ta := seq(|a|, k requires 0 <= k < |a| => SectionText(a[k]));
    var tb := seq(|b|, k requires 0 <= k < |b| => SectionText(b[k]));
    assert seq(|a + b|, k requires 0 <= k < |a + b| => SectionText((a + b)[k])) == ta + tb;
    ConcatAppend(ta, tb);
  }

  lemma SectionsTextSingle(s: Section)
    ensures SectionsText([s]) == SectionText(s)
  {
    var t := seq(|[s]|, k requires 0 <= k < |[s]| => SectionText([s][k]));
    assert t == [SectionText(s)];
    assert Concat(t[1..]) == [];
    assert Concat(t) == SectionText(s) + [];
  }

  /** `os.walk`'s split of a listing: the directories. */
  function IsDir(): Node -> bool
  {
    (n: Node) => n.Dir?
  }

  /** `os.walk`'s split of a listing: everything else, `Special` entries included. */
  function IsNotDir(): Node -> bool
  {
    (n: Node) => !n.Dir?
  }

  /** The condition of the `dirs[:] = ...` comprehension. */
  function NotExcludedDir(ex: Exclusions): Node -> bool
  {
    (n: Node) => !DirExcluded(n, ex)
  }

  /** `dirs` after pruning: the directories of the listing, in listing order, that match no `exclude_dirs` pattern. */
  function PrunedDirs(d: Node, ex: Exclusions): (ds: seq<Node>)
    requires d.Dir?
    ensures forall x :: x in ds <==> x in d.children && x.Dir? && !DirExcluded(x, ex)
  {
    Filter(Filter(d.children, IsDir()), NotExcludedDir(ex))
  }

  /** The condition under which the inner loop does not `continue`: the name matches no `exclude_exts` pattern. */
  function NotExcludedFile(ex: Exclusions): Node -> bool
  {
    (n: Node) => !FileExcluded(n, ex)
  }

  /** `files`: the listing's non-directories, in listing order. */
  function WalkFiles(d: Node): (fs: seq<Node>)
    requires d.Dir?
    ensures forall x :: x in fs <==> x in d.children && !x.Dir?
  {
    Filter(d.children, IsNotDir())
  }

  /**
   * The sections the inner loop writes for the files `files` of the
   * directory at name path `path`: one per file that matches no
   * `exclude_exts` pattern, in order.
   */
  function FileSections(files: seq<Node>, ex: Exclusions, path: seq<string>): seq<Section>
    decreases |files|
  {
    if |files| == 0 then []
    else
      var f := files[|files| - 1];
      FileSections(files[..|files| - 1], ex, path)
      + (if FileExcluded(f, ex) then [] else [Section(path + [f.name], ReadText(f))])
  }

  lemma FileSectionsSnoc(files: seq<Node>, i: nat, ex: Exclusions, path: seq<string>)
    requires i < |files|
    ensures FileSections(files[..i + 1], ex, path) == FileSections(files[..i], ex, path)
      + (if FileExcluded(files[i], ex) then [] else [Section(path + [files[i].name], ReadText(files[i]))])
  {
    assert files[..i + 1][..i] == files[..i];
  }

  /**
   * The sections written for the directory `d` at name path `path` and
   * everything `os.walk` visits below it: nothing when `d` cannot be
   * listed; otherwise the sections of its own files, then those of each
   * kept subdirectory in listing order.
   */
  function WalkSections(d: Node, ex: Exclusions, path: seq<string>): seq<Section>
    requires d.Dir?
    decreases d, 1
  {
    if !d.readable then []
    else FileSections(WalkFiles(d), ex, path) + Concat(SubdirSections(d, ex, path))
  }

  /** The sections of each kept subdirectory's walk, one block per subdirectory. */
  function SubdirSections(d: Node, ex: Exclusions, path: seq<string>): (bs: seq<seq<Section>>)
    requires d.Dir?
    ensures |bs| == |PrunedDirs(d, ex)|
    decreases d, 0
  {
    var dirs := PrunedDirs(d, ex);
    seq(|dirs|, k requires 0 <= k < |dirs| =>
      assert dirs[k] in d.children;
      WalkSections(dirs[k], ex, path + [dirs[k].name]))
  }

  /** The whole document for a directory root. */
  function Document(root: Node, ex: Exclusions): string
    requires root.Dir?
  {
    "Directory Tree:\n" + RenderTree(root, ex) + ("\n\n" + Rule() + "\n\n")
    + SectionsText(WalkSections(root, ex, []))
  }

  /** The output file, opened for writing: what has been written to it so far. */
  class OutputFile {
    var text: string

    constructor ()
      ensures text == ""
    {
      text := "";
    }

    method Write(s: string)
      modifies this
      ensures text == old(text) + s
    {
      text := text + s;
    }
  }

  /**
   * The body of the `os.walk` loop for one directory after pruning: each
   * of its `files` in order, skipping those matching an `exclude_exts`
   * pattern, gets its banner and then, when the read succeeds, its content
   * and a newline.
   */
  method WriteFiles(out: OutputFile, files: seq<Node>, path: seq<string>, ex: Exclusions)
    modifies out
    ensures out.text == old(out.text) + SectionsText(FileSections(files, ex, path))
  {
    for i := 0 to |files|
      invariant out.text == old(out.text) + SectionsText(FileSections(files[..i], ex, path))
    {
      var filename := files[i].name;
      FileSectionsSnoc(files, i, ex, path);
      ghost var before := out.text;
      if AnyMatch(filename, ex.exts) {
        assert FileSections(files[..i + 1], ex, path) == FileSections(files[..i], ex, path);
        continue;
      }
      var section := Section(path + [filename], ReadText(files[i]));
      SectionsTextAppend(FileSections(files[..i], ex, path), [section]);
      SectionsTextSingle(section);
      out.Write(Header(RelPath(path + [filename])));
      var content := ReadText(files[i]);
      if content.Some? {
        out.Write(content.value + "\n");
        AppendAssoc(before, Header(RelPath(path + [filename])), content.value + "\n");
      } else {
        assert SectionText(section) == Header(RelPath(path + [filename])) + [];
      }
      assert out.text == before + SectionText(section);
      AppendAssoc(old(out.text), SectionsText(FileSections(files[..i], ex, path)), SectionText(section));
      assert FileSections(files[..i + 1], ex, path) == FileSections(files[..i], ex, path) + [section];
      assert out.text == old(out.text) + SectionsText(FileSections(files[..i + 1], ex, path));
    }
    assert files[..|files|] == files;
  }

  /**
   * The walk from the directory `current` (at name path `path`): the step
   * of `os.walk` there with the loop body that consumes it, then the steps
   * below it that the pruned `dirs` lead to, one subdirectory after another.
   */
  method WalkAndWrite(out: OutputFile, current: Node, path: seq<string>, ex: Exclusions)
    requires current.Dir?
    modifies out
    ensures out.text == old(out.text) + SectionsText(WalkSections(current, ex, path))
    decreases current
  {
    if !current.readable {
      return;  // the listing fails: os.walk yields nothing here
    }
    var dirs := Filter(current.children, IsDir());
    var files := WalkFiles(current);
    dirs := Filter(dirs, NotExcludedDir(ex));
    WriteFiles(out, files, path, ex);
    ghost var mid := out.text;
    ghost var blocks := SubdirSections(current, ex, path);
    for k := 0 to |dirs|
      invariant out.text == mid + SectionsText(Concat(blocks[..k]))
    {
      assert dirs[k] in current.children;
      assert blocks[k] == WalkSections(dirs[k], ex, path + [dirs[k].name]);
      ConcatSnoc(blocks, k);
      SectionsTextAppend(Concat(blocks[..k]), blocks[k]);
      WalkAndWrite(out, dirs[k], path + [dirs[k].name], ex);
      AppendAssoc(mid, SectionsText(Concat(blocks[..k])), SectionsText(blocks[k]));
    }
    assert blocks[..|dirs|] == blocks;
    SectionsTextAppend(FileSections(files, ex, path), Concat(blocks));
    AppendAssoc(old(out.text), SectionsText(FileSections(files, ex, path)), SectionsText(Concat(blocks)));
  }

  /**
   * `merge_code_files(root_dir, output_file, exclude_dirs, exclude_exts)`:
   * the final contents of the output file.  A root that is not a directory
   * makes the tree step raise before the file is opened: `None`.
   */
  method MergeCodeFiles(root: Node, ex: Exclusions) returns (r: Option<string>)
    ensures r.Some? <==> root.Dir?
    ensures root.Dir? ==> r == Some(Document(root, ex))
  {
    var directoryTree := GenerateDirectoryTree(root, ex);
    if directoryTree.None? {
      return None;
    }
    var out := new OutputFile();
    out.Write("Directory Tree:\n");
    out.Write(directoryTree.value);
    out.Write("\n\n" + Rule() + "\n\n");
    assert out.text == "Directory Tree:\n" + directoryTree.value + ("\n\n" + Rule() + "\n\n");
    WalkAndWrite(out, root, [], ex);
    return Some(out.text);
  }
}
