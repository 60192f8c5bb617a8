/**
 * The directory-tree renderer, `generate_directory_tree` with its nested
 * `walk_dir`.  `Rows` is the specification: the rows the walk emits, in
 * order, each carrying what its line is made of, grouped in one block per
 * listed entry.  `TreeBuilder.WalkDir` is the walk itself, appending lines
 * to the shared list one entry at a time; its contract ties what it
 * appends to `Rows`.
 */
module TreeRender {
  import opened Wrappers
  import opened Text
  import opened Glob
  import opened Fs
  import opened Seqs

  /** An entry the renderer lists: a directory or a regular file whose name is not excluded. */
  predicate TreeShown(n: Node, ex: Exclusions)
  {
    (n.Dir? && !DirExcluded(n, ex)) || (n.File? && !FileExcluded(n, ex))
  }

  /** The condition of the `dirs` comprehension: a directory whose name matches no `exclude_dirs` pattern. */
  function KeepDir(ex: Exclusions): Node -> bool
  {
    (n: Node) => n.Dir? && !DirExcluded(n, ex)
  }

  /** The condition of the `files` comprehension: a regular file whose name matches no `exclude_exts` pattern. */
  function KeepFile(ex: Exclusions): Node -> bool
  {
    (n: Node) => n.File? && !FileExcluded(n, ex)
  }

  /** `dirs`, from the sorted listing. */
  function KeptDirs(listing: seq<Node>, ex: Exclusions): seq<Node>
  {
    Filter(listing, KeepDir(ex))
  }

  /** `files`, from the sorted listing. */
  function KeptFiles(listing: seq<Node>, ex: Exclusions): seq<Node>
  {
    Filter(listing, KeepFile(ex))
  }

  /** `entries`: what one level lists, directories first; nothing if the listing is refused. */
  function EntriesOf(d: Node, ex: Exclusions): (es: seq<Node>)
    requires d.Dir?
    ensures forall x :: x in es ==> x in d.children && TreeShown(x, ex)
  {
    if !d.readable then []
    else
      var dirContent := SortByName(d.children);
      assert forall x :: x in dirContent ==> x in multiset(d.children);
      KeptDirs(dirContent, ex) + KeptFiles(dirContent, ex)
  }

  function Connector(last: bool): string
  {
    if last then "└── " else "├── "
  }

  function Extension(last: bool): string
  {
    if last then "    " else "│   "
  }

  /**
   * One emitted line: the indentation prefix, whether the entry is the last
   * of its directory, its name, whether it is a directory, and (for stating
   * properties) the name path from the root to it.
   */
  datatype Row = Row(indent: string, last: bool, name: string, isDir: bool, path: seq<string>)

  function RowText(r: Row): string
  {
    r.indent + Connector(r.last) + r.name + (if r.isDir then "/" else "")
  }

  function Texts(rows: seq<Row>): (lines: seq<string>)
    ensures |lines| == |rows|
  {
    seq(|rows|, k requires 0 <= k < |rows| => RowText(rows[k]))
  }

  lemma TextsAppend(a: seq<Row>, b: seq<Row>)
    ensures Texts(a + b) == Texts(a) + Texts(b)
  {
  }

  /**
   * The rows `walk_dir(current_dir=d, prefix)` emits, where `path` is the
   * name path of `d` from the root: the blocks of its entries in order.
   */
  function Rows(d: Node, ex: Exclusions, path: seq<string>, prefix: string): seq<Row>
    requires d.Dir?
    decreases d, 2
  {
    Concat(Blocks(d, ex, path, prefix))
  }

  function Blocks(d: Node, ex: Exclusions, path: seq<string>, prefix: string): (bs: seq<seq<Row>>)
    requires d.Dir?
    ensures |bs| == |EntriesOf(d, ex)|
    decreases d, 1
  {
    var entries := EntriesOf(d, ex);
    seq(|entries|, k requires 0 <= k < |entries| => Block(d, ex, path, prefix, k))
  }

  /**
   * What the loop's iteration `index` emits: the entry's own row, then, for
   * a directory, the rows of the recursive call with the grown prefix.
   */
  function Block(d: Node, ex: Exclusions, path: seq<string>, prefix: string, index: nat): seq<Row>
    requires d.Dir? && index < |EntriesOf(d, ex)|
    decreases d, 0
  {
    var entries := EntriesOf(d, ex);
    var e := entries[index];
    assert e in d.children;
    var lastItem := index == |entries| - 1;
    [Row(prefix, lastItem, e.name, e.Dir?, path + [e.name])]
    + (if e.Dir? then Rows(e, ex, path + [e.name], prefix + Extension(lastItem)) else [])
  }

  /** The lines of iteration `index`: the entry's own line, then its subtree's. */
  lemma BlockLines(d: Node, ex: Exclusions, path: seq<string>, prefix: string, index: nat)
    requires d.Dir? && index < |EntriesOf(d, ex)|
    ensures var e := EntriesOf(d, ex)[index];
      var lastItem := index == |EntriesOf(d, ex)| - 1;
      Texts(Block(d, ex, path, prefix, index)) ==
        [prefix + Connector(lastItem) + e.name + (if e.Dir? then "/" else "")]
        + (if e.Dir? then Texts(Rows(e, ex, path + [e.name], prefix + Extension(lastItem))) else [])
  {
    var entries := EntriesOf(d, ex);
    var e := entries[index];
    var lastItem := index == |entries| - 1;
    var here := Row(prefix, lastItem, e.name, e.Dir?, path + [e.name]);
    var sub := if e.Dir? then Rows(e, ex, path + [e.name], prefix + Extension(lastItem)) else [];
    assert Block(d, ex, path, prefix, index) == [here] + sub;
    TextsAppend([here], sub);
    assert Texts([here]) == [RowText(here)];
  }

  /** The list `tree`: the root's base name with `/`, then the walk's lines. */
  function TreeLines(root: Node, ex: Exclusions): seq<string>
    requires root.Dir?
  {
    [root.name + "/"] + Texts(Rows(root, ex, [], ""))
  }

  /** `"\n".join(tree)`. */
  function RenderTree(root: Node, ex: Exclusions): string
    requires root.Dir?
  {
    Join(TreeLines(root, ex), "\n")
  }

  /** The state `walk_dir` closes over: the exclusion lists and the growing list of lines. */
  class TreeBuilder {
    const ex: Exclusions
    var tree: seq<string>

    constructor (ex: Exclusions, rootLine: string)
      ensures this.ex == ex && tree == [rootLine]
    {
      this.ex := ex;
      tree := [rootLine];
    }

    /** `walk_dir(current_dir, prefix)`, where `currentPath` names `current_dir` from the root. */
    method WalkDir(current: Node, currentPath: seq<string>, prefix: string)
      requires current.Dir?
      modifies this
      ensures tree == old(tree) + Texts(Rows(current, ex, currentPath, prefix))
      decreases current
    {
      if !current.readable {
        return;  // PermissionError
      }
      var entries := EntriesOf(current, ex);
      ghost var blocks := Blocks(current, ex, currentPath, prefix);
      for index := 0 to |entries|
        invariant tree == old(tree) + Texts(Concat(blocks[..index]))
      {
        var name, isDir := entries[index].name, entries[index].Dir?;
        var lastItem := index == |entries| - 1;
        var connector := Connector(lastItem);
        var line := prefix + connector + name + (if isDir then "/" else "");
        ghost var before := tree;
        assert blocks[index] == Block(current, ex, currentPath, prefix, index);
        BlockLines(current, ex, currentPath, prefix, index);
        ConcatSnoc(blocks, index);
        TextsAppend(Concat(blocks[..index]), blocks[index]);
        tree := tree + [line];
        if isDir {
          var extension := Extension(lastItem);
          assert entries[index] in current.children;
          WalkDir(entries[index], currentPath + [name], prefix + extension);
          AppendAssoc(before, [line], Texts(Rows(entries[index], ex, currentPath + [name], prefix + extension)));
        }
        AppendAssoc(old(tree), Texts(Concat(blocks[..index])), Texts(blocks[index]));
      }
      assert blocks[..|entries|] == blocks;
    }
  }

  /**
   * `generate_directory_tree(root_dir, exclude_dirs, exclude_exts)`.  A
   * root that is not a directory makes `os.listdir` raise an exception the
   * function does not catch: `None`.
   */
  method GenerateDirectoryTree(root: Node, ex: Exclusions) returns (r: Option<string>)
    ensures r.Some? <==> root.Dir?
    ensures root.Dir? ==> r == Some(RenderTree(root, ex))
  {
    var builder := new TreeBuilder(ex, root.name + "/");
    if !root.Dir? {
      return None;
    }
    builder.WalkDir(root, [], "");
    return Some(Join(builder.tree, "\n"));
  }
}
