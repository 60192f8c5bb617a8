/**
 * What the directory tree promises: each level lists its directories
 * first and then its files, each group in name order; exactly the entries a
 * walk that skips excluded directories and refused listings can reach
 * appear, each on exactly one line when names are unique per directory;
 * the lines keep the entry order, each directory's subtree directly after
 * its own line; the connector and indentation of a line follow from its
 * position; and the rendered text splits back into its lines when no name
 * holds a newline.
 */
module TreeProps {
  import opened Wrappers
  import opened Text
  import opened Glob
  import opened Fs
  import opened Seqs
  import opened TreeRender

  /**
   * One level's entries: as a multiset, exactly the listing's shown
   * children (none when the listing is refused); every directory before
   * every file; each group in name order.
   */
  lemma EntriesOrdered(d: Node, ex: Exclusions)
    requires d.Dir?
    ensures var es := EntriesOf(d, ex);
      forall x :: multiset(es)[x] == if d.readable && TreeShown(x, ex) then multiset(d.children)[x] else 0
    ensures var es := EntriesOf(d, ex);
      forall i, j :: 0 <= i < j < |es| && es[j].Dir? ==> es[i].Dir?
    ensures var es := EntriesOf(d, ex);
      forall i, j :: 0 <= i < j < |es| && es[i].Dir? == es[j].Dir? ==> LexLe(es[i].name, es[j].name)
  {
    if d.readable {
      var sorted := SortByName(d.children);
      EntriesMultiset(sorted, ex);
      SortByNameSorted(d.children);
      FilterSorted(sorted, KeepDir(ex));
      FilterSorted(sorted, KeepFile(ex));
      SplitListingOrdered(KeptDirs(sorted, ex), KeptFiles(sorted, ex));
    }
  }

  lemma EntriesMultiset(sorted: seq<Node>, ex: Exclusions)
    ensures forall x ::
      multiset(KeptDirs(sorted, ex) + KeptFiles(sorted, ex))[x] == (if TreeShown(x, ex) then multiset(sorted)[x] else 0)
  {
    forall x
      ensures multiset(KeptDirs(sorted, ex) + KeptFiles(sorted, ex))[x] ==
        if TreeShown(x, ex) then multiset(sorted)[x] else 0
    {
      FilterMultiset(sorted, KeepDir(ex), x);
      FilterMultiset(sorted, KeepFile(ex), x);
    }
  }

  lemma SplitListingOrdered(a: seq<Node>, b: seq<Node>)
    requires SortedByName(a) && SortedByName(b)
    requires forall x :: x in a ==> x.Dir?
    requires forall x :: x in b ==> !x.Dir?
    ensures var es := a + b;
      forall i, j :: 0 <= i < j < |es| && es[j].Dir? ==> es[i].Dir?
    ensures var es := a + b;
      forall i, j :: 0 <= i < j < |es| && es[i].Dir? == es[j].Dir? ==> LexLe(es[i].name, es[j].name)
  {
    var es := a + b;
    forall i, j | 0 <= i < j < |es| && es[i].Dir? == es[j].Dir?
      ensures LexLe(es[i].name, es[j].name)
    {
      if j < |a| {
        assert es[i] == a[i] && es[j] == a[j];
      } else if i >= |a| {
        assert es[i] == b[i - |a|] && es[j] == b[j - |a|];
      } else {
        assert false;
      }
    }
    forall i, j | 0 <= i < j < |es| && es[j].Dir?
      ensures es[i].Dir?
    {
      if j >= |a| {
        assert false;
      } else {
        assert es[i] == a[i];
        assert es[i] in a;
      }
    }
  }

  /** Membership in one level's entries, from `EntriesOrdered`. */
  lemma EntriesMember(d: Node, ex: Exclusions, x: Node)
    requires d.Dir?
    ensures x in EntriesOf(d, ex) <==> d.readable && x in d.children && TreeShown(x, ex)
  {
    EntriesOrdered(d, ex);
    assert x in multiset(EntriesOf(d, ex)) <==> x in EntriesOf(d, ex);
  }

  /** In a well-formed tree one level never lists two entries of the same name. */
  lemma EntriesUnique(d: Node, ex: Exclusions)
    requires d.Dir? && WellFormed(d)
    ensures UniqueNames(EntriesOf(d, ex))
  {
    EntriesOrdered(d, ex);
    UniqueNamesSub(d.children, EntriesOf(d, ex));
  }

  /** A row of `d` belongs to the block of one of its entries. */
  lemma InBlock(d: Node, ex: Exclusions, path: seq<string>, prefix: string, r: Row) returns (k: nat)
    requires d.Dir? && r in Rows(d, ex, path, prefix)
    ensures k < |EntriesOf(d, ex)| && r in Block(d, ex, path, prefix, k)
  {
    var bs := Blocks(d, ex, path, prefix);
    ConcatMember(bs, r);
    k :| 0 <= k < |bs| && r in bs[k];
    assert bs[k] == Block(d, ex, path, prefix, k);
  }

  /** Every row of a block is a row of `d`. */
  lemma BlockInRows(d: Node, ex: Exclusions, path: seq<string>, prefix: string, k: nat, r: Row)
    requires d.Dir? && k < |EntriesOf(d, ex)| && r in Block(d, ex, path, prefix, k)
    ensures r in Rows(d, ex, path, prefix)
  {
    var bs := Blocks(d, ex, path, prefix);
    assert bs[k] == Block(d, ex, path, prefix, k);
    ConcatMember(bs, r);
  }

  /** Every row of a listed directory's walk is a row of `d`. */
  lemma SubRowsInRows(d: Node, ex: Exclusions, path: seq<string>, prefix: string, k: nat, r: Row)
    requires d.Dir? && k < |EntriesOf(d, ex)| && EntriesOf(d, ex)[k].Dir?
    requires var es := EntriesOf(d, ex);
      r in Rows(es[k], ex, path + [es[k].name], prefix + Extension(k == |es| - 1))
    ensures r in Rows(d, ex, path, prefix)
  {
    assert r in Block(d, ex, path, prefix, k);
    BlockInRows(d, ex, path, prefix, k, r);
  }

  /** Every row names an entry the walk reaches, at the row's path, with its name and kind. */
  lemma {:induction false} RowsSound(d: Node, ex: Exclusions, path: seq<string>, prefix: string, r: Row)
    requires d.Dir? && r in Rows(d, ex, path, prefix)
    ensures |path| < |r.path| && r.path[..|path|] == path
    ensures exists leaf :: (Reaches(d, r.path[|path|..], ex, leaf) && TreeShown(leaf, ex)
      && leaf.name == r.name && leaf.Dir? == r.isDir)
    decreases d
  {
    var k := InBlock(d, ex, path, prefix, r);
    var entries := EntriesOf(d, ex);
    var e := entries[k];
    assert e in d.children && d.readable;
    var lastItem := k == |entries| - 1;
    if r == Row(prefix, lastItem, e.name, e.Dir?, path + [e.name]) {
      assert r.path[|path|..] == [e.name];
      ReachesChild(d, ex, e);
    } else {
      var head := Row(prefix, lastItem, e.name, e.Dir?, path + [e.name]);
      var sub := if e.Dir? then Rows(e, ex, path + [e.name], prefix + Extension(lastItem)) else [];
      assert Block(d, ex, path, prefix, k) == [head] + sub;
      assert r in sub;
      RowsSound(e, ex, path + [e.name], prefix + Extension(lastItem), r);
      var leaf :| Reaches(e, r.path[|path| + 1..], ex, leaf) && TreeShown(leaf, ex)
        && leaf.name == r.name && leaf.Dir? == r.isDir;
      PrefixStep(r.path, path, e.name);
      ReachesStep(d, e, r.path[|path| + 1..], ex, leaf);
    }
  }

  /** Every entry the walk reaches and shows has a row at its path, with its name and kind. */
  lemma {:induction false} RowsComplete(d: Node, ex: Exclusions, path: seq<string>, prefix: string, t: seq<string>, leaf: Node)
    requires d.Dir? && Reaches(d, t, ex, leaf) && TreeShown(leaf, ex)
    ensures exists r :: (r in Rows(d, ex, path, prefix) && r.path == path + t
      && r.name == leaf.name && r.isDir == leaf.Dir?)
    decreases |t|
  {
    var c := ReachesFirst(d, t, ex, leaf);
    EntriesMember(d, ex, c);
    var entries := EntriesOf(d, ex);
    var k :| 0 <= k < |entries| && entries[k] == c;
    var lastItem := k == |entries| - 1;
    if |t| == 1 {
      var r := Row(prefix, lastItem, c.name, c.Dir?, path + [c.name]);
      assert r in Block(d, ex, path, prefix, k) && r.path == path + t;
      BlockInRows(d, ex, path, prefix, k, r);
    } else {
      var sub, subPrefix := path + [c.name], prefix + Extension(lastItem);
      RowsComplete(c, ex, sub, subPrefix, t[1..], leaf);
      var r :| r in Rows(c, ex, sub, subPrefix) && r.path == sub + t[1..] && r.name == leaf.name && r.isDir == leaf.Dir?;
      SubRowsInRows(d, ex, path, prefix, k, r);
      AppendFirst(path, t);
    }
  }

  function RowPath(): Row -> seq<string>
  {
    (r: Row) => r.path
  }

  /** Every row of entry `k`'s block lies at or below that entry's path. */
  lemma BlockPaths(d: Node, ex: Exclusions, path: seq<string>, prefix: string, k: nat, r: Row)
    requires d.Dir? && k < |EntriesOf(d, ex)| && r in Block(d, ex, path, prefix, k)
    ensures |path| < |r.path| && r.path[|path|] == EntriesOf(d, ex)[k].name
  {
    var es := EntriesOf(d, ex);
    var e := es[k];
    assert e in d.children;
    var lastItem := k == |es| - 1;
    var head := Row(prefix, lastItem, e.name, e.Dir?, path + [e.name]);
    if r != head {
      var sub := if e.Dir? then Rows(e, ex, path + [e.name], prefix + Extension(lastItem)) else [];
      assert Block(d, ex, path, prefix, k) == [head] + sub;
      assert r in sub;
      RowsSound(e, ex, path + [e.name], prefix + Extension(lastItem), r);
      assert r.path[|path|] == r.path[..|path| + 1][|path|];
    }
  }

  /** Entry `k`'s block has no two rows at the same path, given that the walk below it has none. */
  lemma BlockDistinct(d: Node, ex: Exclusions, path: seq<string>, prefix: string, k: nat)
    requires d.Dir? && k < |EntriesOf(d, ex)|
    requires var es := EntriesOf(d, ex); es[k].Dir? ==>
      DistinctBy(Rows(es[k], ex, path + [es[k].name], prefix + Extension(k == |es| - 1)), RowPath())
    ensures DistinctBy(Block(d, ex, path, prefix, k), RowPath())
  {
    var es := EntriesOf(d, ex);
    var e := es[k];
    assert e in d.children;
    var lastItem := k == |es| - 1;
    var head := Row(prefix, lastItem, e.name, e.Dir?, path + [e.name]);
    var sub := if e.Dir? then Rows(e, ex, path + [e.name], prefix + Extension(lastItem)) else [];
    assert Block(d, ex, path, prefix, k) == [head] + sub;
    forall x, y | x in [head] && y in sub ensures RowPath()(x) != RowPath()(y) {
      RowsSound(e, ex, path + [e.name], prefix + Extension(lastItem), y);
    }
    DistinctAppend([head], sub, RowPath());
  }

  /** The blocks of two different entries have no path in common, since the entries' names differ. */
  lemma BlocksApart(d: Node, ex: Exclusions, path: seq<string>, prefix: string)
    requires d.Dir? && WellFormed(d)
    ensures ApartBy(Blocks(d, ex, path, prefix), RowPath())
  {
    var bs := Blocks(d, ex, path, prefix);
    EntriesUnique(d, ex);
    forall k, l, x, y | 0 <= k < l < |bs| && x in bs[k] && y in bs[l] ensures RowPath()(x) != RowPath()(y) {
      assert bs[k] == Block(d, ex, path, prefix, k) && bs[l] == Block(d, ex, path, prefix, l);
      BlockPaths(d, ex, path, prefix, k, x);
      BlockPaths(d, ex, path, prefix, l, y);
    }
  }

  /**
   * In a well-formed tree no two rows share a path: the walk draws each
   * entry it reaches on exactly one line.
   */
  lemma {:induction false} RowsDistinct(d: Node, ex: Exclusions, path: seq<string>, prefix: string)
    requires d.Dir? && WellFormed(d)
    ensures DistinctBy(Rows(d, ex, path, prefix), RowPath())
    decreases d
  {
    var es := EntriesOf(d, ex);
    var bs := Blocks(d, ex, path, prefix);
    forall k | 0 <= k < |bs| ensures DistinctBy(bs[k], RowPath()) {
      assert es[k] in d.children;
      if es[k].Dir? {
        RowsDistinct(es[k], ex, path + [es[k].name], prefix + Extension(k == |es| - 1));
      }
      BlockDistinct(d, ex, path, prefix, k);
      assert bs[k] == Block(d, ex, path, prefix, k);
    }
    BlocksApart(d, ex, path, prefix);
    ConcatDistinct(bs, RowPath());
  }

  /**
   * In a well-formed tree every entry the walk reaches and shows has
   * exactly one line: one row at its path, with its name and kind.
   */
  lemma RowsOnePerPath(root: Node, ex: Exclusions, t: seq<string>, leaf: Node)
    requires root.Dir? && WellFormed(root) && Reaches(root, t, ex, leaf) && TreeShown(leaf, ex)
    ensures var rows := Rows(root, ex, [], "");
      exists i :: (0 <= i < |rows| && rows[i].path == t && rows[i].name == leaf.name && rows[i].isDir == leaf.Dir?
        && forall j :: 0 <= j < |rows| && rows[j].path == t ==> j == i)
  {
    var rows := Rows(root, ex, [], "");
    RowsComplete(root, ex, [], "", t, leaf);
    assert [] + t == t;
    var r :| r in rows && r.path == t && r.name == leaf.name && r.isDir == leaf.Dir?;
    var i :| 0 <= i < |rows| && rows[i] == r;
    RowsDistinct(root, ex, [], "");
    assert forall j :: 0 <= j < |rows| && j != i ==> RowPath()(rows[j]) != RowPath()(rows[i]);
    assert forall j :: 0 <= j < |rows| && rows[j].path == t ==> j == i;
  }

  /** The index, among the rows of `d`, of entry `k`'s line; `|EntriesOf(d, ex)|` gives the end. */
  function EntryLine(d: Node, ex: Exclusions, path: seq<string>, prefix: string, k: nat): nat
    requires d.Dir? && k <= |EntriesOf(d, ex)|
  {
    Offset(Blocks(d, ex, path, prefix), k)
  }

  /**
   * The layout of the lines: the first entry's line comes first; entry
   * `k`'s line is followed immediately by its subtree's lines (for a
   * directory) and then by entry `k + 1`'s line; the last entry's
   * subtree ends the rows.
   */
  lemma BlockLayout(d: Node, ex: Exclusions, path: seq<string>, prefix: string, k: nat)
    requires d.Dir? && k < |EntriesOf(d, ex)|
    ensures EntryLine(d, ex, path, prefix, 0) == 0
    ensures EntryLine(d, ex, path, prefix, |EntriesOf(d, ex)|) == |Rows(d, ex, path, prefix)|
    ensures var rows := Rows(d, ex, path, prefix);
      var es := EntriesOf(d, ex);
      var lastItem := k == |es| - 1;
      var s, n := EntryLine(d, ex, path, prefix, k), EntryLine(d, ex, path, prefix, k + 1);
      s < n <= |rows|
      && rows[s] == Row(prefix, lastItem, es[k].name, es[k].Dir?, path + [es[k].name])
      && rows[s + 1..n] == if es[k].Dir? then Rows(es[k], ex, path + [es[k].name], prefix + Extension(lastItem)) else []
  {
    var bs := Blocks(d, ex, path, prefix);
    OffsetBounds(bs);
    ConcatAt(bs, k);
    var es := EntriesOf(d, ex);
    var e := es[k];
    assert e in d.children;
    var lastItem := k == |es| - 1;
    var head := Row(prefix, lastItem, e.name, e.Dir?, path + [e.name]);
    var sub := if e.Dir? then Rows(e, ex, path + [e.name], prefix + Extension(lastItem)) else [];
    assert bs[k] == Block(d, ex, path, prefix, k) == [head] + sub;
    var rows := Rows(d, ex, path, prefix);
    var s, n := Offset(bs, k), Offset(bs, k + 1);
    assert rows[s..n] == [head] + sub;
    assert rows[s] == rows[s..n][0];
    assert rows[s + 1..n] == rows[s..n][1..];
  }

  /** Each row of `d` falls in the span of one entry: it is that entry's own line, or it lies deeper. */
  lemma LineDepth(d: Node, ex: Exclusions, path: seq<string>, prefix: string, i: nat) returns (k: nat)
    requires d.Dir? && i < |Rows(d, ex, path, prefix)|
    ensures k < |EntriesOf(d, ex)| && EntryLine(d, ex, path, prefix, k) <= i < EntryLine(d, ex, path, prefix, k + 1)
    ensures i == EntryLine(d, ex, path, prefix, k) || |Rows(d, ex, path, prefix)[i].path| > |path| + 1
  {
    var bs := Blocks(d, ex, path, prefix);
    k := ConcatIndex(bs, i);
    assert bs[k] == Block(d, ex, path, prefix, k);
    var o := i - Offset(bs, k);
    if o > 0 {
      BlockRowDepth(d, ex, path, prefix, k, o);
    }
  }

  /** Past its first row, entry `k`'s block holds the subtree's rows, which lie deeper than the entry. */
  lemma BlockRowDepth(d: Node, ex: Exclusions, path: seq<string>, prefix: string, k: nat, o: nat)
    requires d.Dir? && k < |EntriesOf(d, ex)| && 0 < o < |Block(d, ex, path, prefix, k)|
    ensures |Block(d, ex, path, prefix, k)[o].path| > |path| + 1
  {
    var es := EntriesOf(d, ex);
    var e := es[k];
    assert e in d.children;
    var lastItem := k == |es| - 1;
    var head := Row(prefix, lastItem, e.name, e.Dir?, path + [e.name]);
    var sub := if e.Dir? then Rows(e, ex, path + [e.name], prefix + Extension(lastItem)) else [];
    assert Block(d, ex, path, prefix, k) == [head] + sub;
    assert Block(d, ex, path, prefix, k)[o] == sub[o - 1];
    RowsSound(e, ex, path + [e.name], prefix + Extension(lastItem), sub[o - 1]);
  }

  /**
   * Among the lines of one directory's own entries, every directory's line
   * comes before every file's, and lines of the same kind are in name
   * order.
   */
  lemma DirectLinesOrdered(d: Node, ex: Exclusions, path: seq<string>, prefix: string, i: nat, j: nat)
    requires d.Dir? && i < j < |Rows(d, ex, path, prefix)|
    requires |Rows(d, ex, path, prefix)[i].path| == |path| + 1 && |Rows(d, ex, path, prefix)[j].path| == |path| + 1
    ensures var rows := Rows(d, ex, path, prefix);
      (rows[j].isDir ==> rows[i].isDir) && (rows[i].isDir == rows[j].isDir ==> LexLe(rows[i].name, rows[j].name))
  {
    var bs := Blocks(d, ex, path, prefix);
    var ki := LineDepth(d, ex, path, prefix, i);
    var kj := LineDepth(d, ex, path, prefix, j);
    if kj < ki {
      OffsetMonotone(bs, kj + 1, ki);
      assert false;
    }
    if ki == kj {
      assert false;
    }
    BlockLayout(d, ex, path, prefix, ki);
    BlockLayout(d, ex, path, prefix, kj);
    EntriesOrdered(d, ex);
  }

  /**
   * The rows of a directory's own entries: the `k`-th entry's row has the
   * directory's prefix and is marked last exactly when `k` is the final
   * index, so it gets `└── ` and every earlier sibling `├── `.
   */
  lemma {:induction false} DirectRows(d: Node, ex: Exclusions, path: seq<string>, prefix: string, r: Row)
    requires d.Dir? && r in Rows(d, ex, path, prefix) && |r.path| == |path| + 1
    ensures var es := EntriesOf(d, ex);
      exists k :: 0 <= k < |es| && r == Row(prefix, k == |es| - 1, es[k].name, es[k].Dir?, path + [es[k].name])
  {
    var bs := Blocks(d, ex, path, prefix);
    ConcatMember(bs, r);
    var k :| 0 <= k < |bs| && r in bs[k];
    var es := EntriesOf(d, ex);
    var e := es[k];
    assert e in d.children;
    assert bs[k] == Block(d, ex, path, prefix, k);
    var lastItem := k == |es| - 1;
    if r != Row(prefix, lastItem, e.name, e.Dir?, path + [e.name]) {
      RowsSound(e, ex, path + [e.name], prefix + Extension(lastItem), r);
      assert false;
    }
  }

  /** Each directory entry's row is present, in the form `DirectRows` describes. */
  lemma DirectRowPresent(d: Node, ex: Exclusions, path: seq<string>, prefix: string, k: nat)
    requires d.Dir? && k < |EntriesOf(d, ex)|
    ensures var es := EntriesOf(d, ex);
      Row(prefix, k == |es| - 1, es[k].name, es[k].Dir?, path + [es[k].name]) in Rows(d, ex, path, prefix)
  {
    var es := EntriesOf(d, ex);
    var bs := Blocks(d, ex, path, prefix);
    var r := Row(prefix, k == |es| - 1, es[k].name, es[k].Dir?, path + [es[k].name]);
    assert bs[k] == Block(d, ex, path, prefix, k);
    assert r in bs[k];
    ConcatMember(bs, r);
  }

  /**
   * A row deeper than the directory's own entries sits under the row of its
   * parent directory, and its indentation is the parent's extended by four
   * blanks when the parent was last and by `│   ` otherwise.
   */
  lemma {:induction false} RowParent(d: Node, ex: Exclusions, path: seq<string>, prefix: string, r: Row)
    requires d.Dir? && r in Rows(d, ex, path, prefix) && |r.path| > |path| + 1
    ensures exists a :: (a in Rows(d, ex, path, prefix) && a.isDir && a.path == r.path[..|r.path| - 1]
      && r.indent == a.indent + Extension(a.last))
    decreases d
  {
    var bs := Blocks(d, ex, path, prefix);
    ConcatMember(bs, r);
    var k :| 0 <= k < |bs| && r in bs[k];
    var es := EntriesOf(d, ex);
    var e := es[k];
    assert e in d.children;
    assert bs[k] == Block(d, ex, path, prefix, k);
    var lastItem := k == |es| - 1;
    var head := Row(prefix, lastItem, e.name, e.Dir?, path + [e.name]);
    assert r != head;
    var sub := Rows(e, ex, path + [e.name], prefix + Extension(lastItem));
    assert e.Dir? && r in sub;
    if |r.path| == |path| + 2 {
      DirectRows(e, ex, path + [e.name], prefix + Extension(lastItem), r);
      RowsSound(e, ex, path + [e.name], prefix + Extension(lastItem), r);
      assert head.path == r.path[..|r.path| - 1];
      assert head in bs[k];
      ConcatMember(bs, head);
    } else {
      RowParent(e, ex, path + [e.name], prefix + Extension(lastItem), r);
      var a :| a in sub && a.isDir && a.path == r.path[..|r.path| - 1] && r.indent == a.indent + Extension(a.last);
      assert a in bs[k];
      ConcatMember(bs, a);
    }
  }

  /**
   * Each level below `d` adds four characters of indentation: a row at
   * depth `n` below `d` (its own entries are at depth 1) has `prefix`
   * followed by `4 * (n - 1)` characters.
   */
  lemma {:induction false} RowIndentLength(d: Node, ex: Exclusions, path: seq<string>, prefix: string, r: Row)
    requires d.Dir? && r in Rows(d, ex, path, prefix)
    ensures |path| < |r.path|
    ensures |r.indent| == |prefix| + 4 * (|r.path| - |path| - 1) && r.indent[..|prefix|] == prefix
    decreases d
  {
    var k := InBlock(d, ex, path, prefix, r);
    var es := EntriesOf(d, ex);
    var e := es[k];
    assert e in d.children;
    var lastItem := k == |es| - 1;
    var head := Row(prefix, lastItem, e.name, e.Dir?, path + [e.name]);
    if r != head {
      var subPrefix := prefix + Extension(lastItem);
      var sub := if e.Dir? then Rows(e, ex, path + [e.name], subPrefix) else [];
      assert Block(d, ex, path, prefix, k) == [head] + sub;
      assert r in sub;
      RowIndentLength(e, ex, path + [e.name], subPrefix, r);
      assert r.indent[..|prefix|] == r.indent[..|subPrefix|][..|prefix|];
    }
  }

  /**
   * A character absent from the prefix and from both extensions (a newline,
   * say) is absent from every row's indentation, however deep the walk goes.
   */
  lemma {:induction false} RowIndentAvoids(d: Node, ex: Exclusions, path: seq<string>, prefix: string, r: Row, ch: char)
    requires d.Dir? && r in Rows(d, ex, path, prefix)
    requires ch !in prefix && ch !in Extension(true) && ch !in Extension(false)
    ensures ch !in r.indent
    decreases d
  {
    var bs := Blocks(d, ex, path, prefix);
    ConcatMember(bs, r);
    var k :| 0 <= k < |bs| && r in bs[k];
    var es := EntriesOf(d, ex);
    var e := es[k];
    assert e in d.children;
    assert bs[k] == Block(d, ex, path, prefix, k);
    var lastItem := k == |es| - 1;
    if r != Row(prefix, lastItem, e.name, e.Dir?, path + [e.name]) {
      RowIndentAvoids(e, ex, path + [e.name], prefix + Extension(lastItem), r, ch);
    }
  }

  /** The first line is the root's name with `/`; there is one further line per row. */
  lemma TreeLinesShape(root: Node, ex: Exclusions)
    requires root.Dir?
    ensures var lines := TreeLines(root, ex);
      |lines| == 1 + |Rows(root, ex, [], "")| && lines[0] == root.name + "/"
      && forall k :: 1 <= k < |lines| ==> lines[k] == RowText(Rows(root, ex, [], "")[k - 1])
  {
  }

  /**
   * The rendered text starts with the root's name and `/`; a newline
   * follows exactly when the walk drew at least one line.
   */
  lemma RenderTreeStart(root: Node, ex: Exclusions)
    requires root.Dir?
    ensures var t, n := RenderTree(root, ex), |root.name| + 1;
      n <= |t| && t[..n] == root.name + "/"
      && (|t| > n <==> |Rows(root, ex, [], "")| > 0)
      && (|t| > n ==> t[n] == '\n')
  {
  }

  /** A root whose listing is refused, or shows nothing, renders as its name and `/` alone. */
  lemma EmptyRootTree(root: Node, ex: Exclusions)
    requires root.Dir? && |EntriesOf(root, ex)| == 0
    ensures RenderTree(root, ex) == root.name + "/"
  {
    assert Rows(root, ex, [], "") == [];
    assert TreeLines(root, ex) == [root.name + "/"];
  }

  /** A row's line holds no newline when no name does. */
  lemma RowTextAvoidsNewline(d: Node, ex: Exclusions, path: seq<string>, prefix: string, r: Row)
    requires d.Dir? && r in Rows(d, ex, path, prefix) && NamesAvoid(d, '\n') && '\n' !in prefix
    ensures '\n' !in RowText(r)
  {
    RowIndentAvoids(d, ex, path, prefix, r, '\n');
    RowsSound(d, ex, path, prefix, r);
    var leaf :| Reaches(d, r.path[|path|..], ex, leaf) && TreeShown(leaf, ex)
      && leaf.name == r.name && leaf.Dir? == r.isDir;
    ReachedNameAvoids(d, r.path[|path|..], ex, leaf, '\n');
  }

  /**
   * When no name on the tree contains a newline, splitting the rendered
   * text at newlines gives back exactly the lines: one line per entry.
   */
  lemma RenderTreeSplits(root: Node, ex: Exclusions)
    requires root.Dir? && NamesAvoid(root, '\n')
    ensures Split(RenderTree(root, ex), '\n') == TreeLines(root, ex)
  {
    var rows := Rows(root, ex, [], "");
    var lines := TreeLines(root, ex);
    forall k | 0 <= k < |lines| ensures '\n' !in lines[k] {
      if k > 0 {
        assert rows[k - 1] in rows && lines[k] == RowText(rows[k - 1]);
        RowTextAvoidsNewline(root, ex, [], "", rows[k - 1]);
      }
    }
    SplitJoin(lines, '\n');
  }

  /** A line ends with `/` exactly when it is a directory's, given names that do not end with `/`. */
  lemma RowTextSlash(d: Node, ex: Exclusions, path: seq<string>, prefix: string, r: Row)
    requires d.Dir? && r in Rows(d, ex, path, prefix) && NamesAvoid(d, '/')
    ensures var line := RowText(r); (line[|line| - 1] == '/') <==> r.isDir
  {
    RowsSound(d, ex, path, prefix, r);
    var leaf :| Reaches(d, r.path[|path|..], ex, leaf) && TreeShown(leaf, ex)
      && leaf.name == r.name && leaf.Dir? == r.isDir;
    ReachedNameAvoids(d, r.path[|path|..], ex, leaf, '/');
    LineEndsWithSlash(r);
  }

  lemma LineEndsWithSlash(r: Row)
    requires '/' !in r.name
    ensures var line := RowText(r); (line[|line| - 1] == '/') <==> r.isDir
  {
    if !r.isDir && |r.name| > 0 {
      assert RowText(r)[|RowText(r)| - 1] == r.name[|r.name| - 1];
      assert r.name[|r.name| - 1] in r.name;
    }
  }
}
