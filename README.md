# code2ai: directory tree and aggregate document, modelled in Dafny

`code2ai.py` turns a source directory into one text document to hand to a
language model. The document has two parts:

- a directory tree drawn with ASCII connectors (`generate_directory_tree`
  with its nested `walk_dir`);
- one banner-and-content section per file that a top-down `os.walk` visits
  (`merge_code_files`).

Both parts use the same two lists of glob patterns. The first excludes
directories by name; the second excludes files by name.

The model replaces the file system with a value,
`Node = Dir(name, children, readable) | File(name, content) | Special(name)`:

- **`children`** is the listing in the order the file system returns it.
- **`readable == false`** stands for a listing that raises `PermissionError`.
- **`content`** is the decoded text, or the decoding failure, or another read
  failure.
- **`Special`** is an entry that is neither a directory nor a regular file and that `open` refuses: a dangling symbolic link or a socket.

The output file is a class whose `text` field grows with every write.

Modules:

- **`Text`**: Python's string order, `join`, `split` and `"=" * n`.
- **`Glob`**: the `fnmatch` subset of literals, `*` and `?`.
- **`Fs`**: the tree, the list comprehensions (`Filter`), `sorted`
  (insertion sort by name), and `Reaches`. `Reaches` is the set of paths a
  walk can get to when it skips excluded directories and listings that fail.
- **`TreeRender`**: the tree renderer. `Rows` is the specification: the rows
  the walk emits, one block per listed entry. `TreeBuilder.WalkDir` is the
  recursive method that appends lines to the shared `tree` list inside its
  indexed loop. Its postcondition ties what it appends to `Rows`.
- **`TreeProps`**: what the tree promises. That covers soundness and
  completeness of its rows, one line per entry, and the order of the lines
  by position. It also covers connectors, indentation and the split round
  trip.
- **`Aggregate`**: the document. `WalkSections` is the specification: the
  sections in walk order. The walk and its consuming loop are methods:
  - `WalkAndWrite` does the walk, and recurses into the pruned `dirs`;
  - `WriteFiles` is the loop over `files`, with its `continue`.

  Both write to `OutputFile`.
- **`AggregateProps`**: which files get sections, one each, and in what
  order. It also says what nothing below an excluded or unreadable
  directory means, and how the tree and the sections agree.

Behaviour the model follows from the code:

- **Directories first.** Each tree level lists its directories before its
  files, each group sorted. So for a root holding `a.txt`, `b.log` and
  `sub/c.py`, with `*.log` excluded, the tree is `root/`, `├── sub/`,
  `│   └── c.py`, `└── a.txt`, with `sub/` before `a.txt`.
- **Banner before the read.** The banner is written before the file is
  read. A file that does not decode, or cannot be opened, therefore leaves
  its banner in the document with no content; it is not dropped.
  `FailedReadBannerOnly` states this.
- **Dangling links and sockets.** The tree keeps only entries for which
  `isdir` or `isfile` holds, so these get no line. `os.walk` puts them
  among `files`, and opening them raises, so they get a banner and no
  content (`SpecialFileBannerOnly`).
- **Unreadable directories.** In the tree, an unreadable directory keeps its
  own line but shows no entries. In the document, nothing below it appears,
  because `os.walk` skips a directory it cannot list. A directory is either
  both listable and enterable or neither; the mixed case is under
  "## Left out".
- **Section order.** Sections follow listing order, not sorted order.

## Model

| member | source | states |
|---|---|---|
| Text.LexLeTotal | code2ai.py:21 | any two names are ordered one way or the other by Python's string `<=` |
| Text.LexLeTrans | code2ai.py:21 | the string order `sorted` uses is transitive |
| Text.LexLeAntisymmetric | code2ai.py:21 | two names each `<=` the other are equal |
| Text.SplitJoin | code2ai.py:55 | splitting a `"\n"`-join at the separator gives the pieces back when no piece contains it |
| Text.Repeat | code2ai.py:75 | `"=" * n` has length `n` and consists of `=` only |
| Glob.AnyMatch | code2ai.py:28 | `any(fnmatch(name, p) for p in patterns)` holds exactly when some pattern of the list matches |
| Glob.LiteralPattern | code2ai.py:113-114 | a pattern without `*` or `?` (such as `.git` or `.gitignore`) matches exactly the equal name |
| Glob.StarSuffixPattern | code2ai.py:114 | `*` followed by a literal suffix (such as `*.log`) matches exactly the names ending in that suffix |
| Glob.StarMatchesAll | code2ai.py:88 | the pattern `*` excludes every name |
| Glob.QuestionMatchesOneChar | code2ai.py:88 | the pattern `?` matches exactly the one-character names |
| Fs.Filter | code2ai.py:26-32 | a list comprehension keeps exactly the elements satisfying its condition and grows nothing |
| Fs.FilterMultiset | code2ai.py:26-32 | a comprehension keeps each kept element as often as it occurs and drops the others |
| Fs.FilterAppend | code2ai.py:26-32 | a comprehension keeps relative order: filtering a listing split in two gives what it keeps of the first part followed by what it keeps of the second |
| Fs.FilterSorted | code2ai.py:26-35 | filtering a sorted listing leaves it sorted, so `dirs` and `files` keep the sorted order |
| Fs.Insert | code2ai.py:21 | one insertion step of the sort adds exactly the new element |
| Fs.InsertSorted | code2ai.py:21 | inserting into a sorted list keeps it sorted |
| Fs.SortByName | code2ai.py:21 | `sorted` returns a permutation of the listing |
| Fs.SortByNameSorted | code2ai.py:21 | `sorted` returns the listing in name order |
| Fs.ReachesThrough | code2ai.py:46-52 | in a well-formed tree, a walk that gets below the node at a path entered it: that node is a readable, non-excluded directory |
| TreeRender.EntriesOf | code2ai.py:17-35 | every entry listed at a level is a child that is a kept directory or a kept regular file |
| TreeRender.TreeBuilder.constructor | code2ai.py:12-13 | the shared list starts as the root's line alone |
| TreeRender.TreeBuilder.WalkDir | code2ai.py:16-52 | the method appends exactly `Texts(Rows(...))` for the directory, and nothing when its listing raises `PermissionError` |
| TreeRender.GenerateDirectoryTree | code2ai.py:5-55 | a directory root yields the `"\n"`-join of the root line and the walk's lines; a root that is not a directory raises, modelled as `None` |
| TreeProps.EntriesOrdered | code2ai.py:21-35 | a level lists each shown child exactly as often as it occurs (none when unreadable), every directory before every file, each group in name order |
| TreeProps.EntriesMember | code2ai.py:20-35 | an entry is listed exactly when the directory is readable and it is a shown child |
| TreeProps.RowsSound | code2ai.py:16-52 | every row lies at a path the walk reaches, and it names a shown entry there with that entry's name and kind |
| TreeProps.RowsComplete | code2ai.py:16-52 | every shown entry the walk reaches has a row at its path with its name and kind |
| TreeProps.RowsDistinct | code2ai.py:16-52 | in a tree with distinct names per directory, no two rows share a path |
| TreeProps.RowsOnePerPath | code2ai.py:16-52 | in such a tree every shown entry the walk reaches has exactly one line, with its name and kind |
| TreeProps.BlockLayout | code2ai.py:37-52 | by position: the first entry's line opens the rows; entry `k`'s line is followed directly by its subtree's lines and then by entry `k + 1`'s line; the last subtree ends the rows |
| TreeProps.LineDepth | code2ai.py:37-52 | every row falls in the span of one entry, and it is that entry's own line or lies deeper |
| TreeProps.DirectLinesOrdered | code2ai.py:21-37 | among the lines of one directory's own entries, every directory line precedes every file line, and lines of the same kind are in name order |
| TreeProps.DirectRows | code2ai.py:37-43 | the rows of a directory's own entries have its prefix; the `k`-th is marked last exactly when `k` is the final index, so only it gets `└── ` |
| TreeProps.DirectRowPresent | code2ai.py:37-43 | every entry of the directory has that row |
| TreeProps.RowParent | code2ai.py:46-52 | a deeper row sits under its parent directory's row, with indentation equal to the parent's plus blanks if the parent was last, otherwise `│   ` |
| TreeProps.RowIndentLength | code2ai.py:43-51 | a row at depth `n` below the walk's start has the start prefix followed by exactly `4 * (n - 1)` characters |
| TreeProps.RenderTreeStart | code2ai.py:13-55 | the rendered text begins with the root's name and `/`, and a newline follows it exactly when the walk drew at least one line |
| TreeProps.EmptyRootTree | code2ai.py:12-23 | a root that is unreadable or shows nothing renders as its name and `/` alone |
| TreeProps.RenderTreeSplits | code2ai.py:55 | when no name contains a newline, the rendered text splits at newlines into exactly its lines |
| TreeProps.RowTextSlash | code2ai.py:43 | a line ends with `/` exactly when it is a directory's line, for names without `/` |
| Aggregate.Rule | code2ai.py:75 | the rule is forty `=` characters |
| Aggregate.PrunedDirs | code2ai.py:78-81 | after `dirs[:] = ...`, `dirs` holds exactly the subdirectories whose names match no `exclude_dirs` pattern |
| Aggregate.WalkFiles | code2ai.py:78 | `files` holds exactly the listing's non-directories, special files included |
| Aggregate.OutputFile.constructor | code2ai.py:71 | the opened output file is empty |
| Aggregate.OutputFile.Write | code2ai.py:73-75 | a write appends its string to the file |
| Aggregate.WriteFiles | code2ai.py:84-107 | the inner loop writes the sections of the kept files in order: each banner, then the content and a newline when the read succeeds |
| Aggregate.WalkAndWrite | code2ai.py:78-107 | the walk writes exactly the text of `WalkSections`: its own files, then each pruned subdirectory's walk in listing order, nothing for an unreadable directory |
| Aggregate.MergeCodeFiles | code2ai.py:57-107 | the output file ends up holding the heading, the tree, the rule and then the sections; a non-directory root raises before the file is opened, modelled as `None` |
| AggregateProps.FileSectionsMember | code2ai.py:84-102 | the inner loop writes a section exactly for each file whose name matches no `exclude_exts` pattern, with that file's path and read result |
| AggregateProps.SectionsSound | code2ai.py:78-107 | every section is for a non-directory the pruned walk reaches, whose name is not excluded, and carries what reading it gave |
| AggregateProps.SectionsComplete | code2ai.py:78-107 | every non-excluded non-directory the pruned walk reaches gets a section with its read result |
| AggregateProps.FileSectionsListing | code2ai.py:84-102 | by position, the inner loop's sections are those of the files matching no `exclude_exts` pattern, in the order of `files` |
| AggregateProps.FileSectionsDistinct | code2ai.py:84-102 | for files of distinct names the inner loop's sections have distinct paths, each one name below the directory |
| AggregateProps.SectionsDistinct | code2ai.py:78-107 | in a tree with distinct names per directory, no two sections share a path |
| AggregateProps.SectionsOnePerPath | code2ai.py:78-107 | in such a tree every non-excluded non-directory the walk reaches has exactly one section, carrying its read result |
| AggregateProps.OwnFilesFirst | code2ai.py:78-89 | the top-down walk writes a directory's own files before any section from below its subdirectories |
| AggregateProps.OwnSectionsInListingOrder | code2ai.py:78-89 | of two non-directory entries of one directory that match no exclude pattern, the one listed first has the earlier section, each section carrying its own path and read result |
| AggregateProps.DirsInListingOrder | code2ai.py:78-81 | `dirs[:]` keeps listing order: of two kept subdirectories, the one listed first comes first in `dirs` |
| AggregateProps.SubdirWalksInOrder | code2ai.py:78-81 | each kept subdirectory's sections form one run, and the runs follow the order of `dirs` |
| AggregateProps.RowAtPath | code2ai.py:26-32 | a tree line at the path of a node shows that node, which is a kept directory or a kept regular file |
| AggregateProps.RowBelowPath | code2ai.py:20-28 | a tree line below the path of a node means that node is a readable, non-excluded directory: nothing under an excluded or unreadable directory is drawn |
| AggregateProps.SectionAtPath | code2ai.py:84-89 | a section at the path of a node is for a kept non-directory and holds what reading it gave |
| AggregateProps.SectionBelowPath | code2ai.py:78-81 | a section below the path of a node means that node is a readable, non-excluded directory: pruned directories are not walked |
| AggregateProps.RowGivesSection | code2ai.py:26-32 | a regular file drawn in the tree has a section |
| AggregateProps.SectionGivesRow | code2ai.py:84-89 | a regular file with a section is drawn in the tree |
| AggregateProps.TreeAndSectionsAgree | code2ai.py:26-32 | in a well-formed tree, where every directory is either both listable and enterable or neither, a regular file is drawn exactly when it has a section |
| AggregateProps.SpecialFileBannerOnly | code2ai.py:30-31 | a reached special file is not drawn, yet its section holds only its banner |
| AggregateProps.FailedReadBannerOnly | code2ai.py:94-107 | a reached regular file that fails to decode or open is drawn, and its section holds only its banner |
| AggregateProps.UnreadableRootDocument | code2ai.py:73-75 | an unreadable root gives the heading, the root's line and the rule, and nothing else |
| AggregateProps.RelPathSplits | code2ai.py:92 | the relative path in a banner splits back at `/` into the file's names |

## Left out

- File system access: `os.listdir`, `os.path.isdir`, `os.path.isfile`,
  `os.walk`, `open`, the writes and `Path.mkdir` act on the `Node` value and
  on `OutputFile.text`. Failures to open the output file are not modelled.
- Exceptions as control flow: `PermissionError` is the `readable` flag.
  Decoding and other read errors are `Content` variants.
- Propagated exceptions: a root that is missing or is not a directory
  raises from `os.listdir`. The methods return `None` for the latter.
- Other listing errors: listing errors other than `PermissionError` below
  the root are not modelled.
- Diagnostics: the lines printed for skipped files go to a side channel and
  are not part of the document.
- UTF-8 decoding: decoding and newline translation in text mode are not
  modelled. The decoded text is part of the `Node` value.
- `fnmatch` features: character classes `[...]` and `os.path.normcase` are
  not modelled. Only literals, `*` and `?` are.
- Path handling: `os.path.abspath`, `basename` and `relpath` normalisation
  are reduced to name paths joined with `/`, and the root's line uses the
  node's name.
- Symbolic links: the difference between `isdir` following symlinks and
  `os.walk` not descending into them is left out.
- Sibling order of `os.walk`: it is the order of `children`, standing for
  whatever the operating system returns.
- Changes during the run: concurrent changes to the tree are not modelled.
  That includes the output file itself appearing in the walked tree while
  it is being written.
- FIFOs and device files: `open` on a FIFO blocks until a writer appears,
  so the run hangs. A character device whose read ends (such as
  `/dev/null`) gets a banner and its content while the tree gives it no
  line. Reading a terminal blocks, and reading `/dev/zero` never ends; if
  memory ran out first, the `MemoryError` would be caught at
  code2ai.py:106, leaving only the banner. Neither kind is a `Special`
  entry, and neither is modelled.
- Undecodable file names: names are modelled as sequences of Unicode
  characters. Python represents name bytes that do not decode as lone
  surrogates. Writing the tree at code2ai.py:74 is outside any `try`, so
  one such name raises `UnicodeEncodeError`. That ends the run after
  `"Directory Tree:\n"` has been written. This path is not modelled.
- Recursion depth: `walk_dir` calls itself once per level (code2ai.py:48).
  Only `PermissionError` is caught (code2ai.py:22), so a chain of about a
  thousand nested directories exceeds Python's recursion limit. The
  resulting `RecursionError` leaves `generate_directory_tree` at
  code2ai.py:69, before the output file is opened at code2ai.py:71. The
  recursion of `WalkDir`, `Rows` and `WalkSections` is unbounded, so
  TreeRender.GenerateDirectoryTree and Aggregate.MergeCodeFiles return
  `Some` for such a tree, where the source raises.
- Directories that can be listed but not entered (read permission without
  execute): `readable` is one flag, so it cannot express this case. In the
  source, `os.listdir` succeeds on such a directory, but `os.path.isdir` and
  `os.path.isfile` fail their `stat` on every entry (code2ai.py:27, :31), so
  the tree shows no entries under it. `os.walk` lists the same directory
  and classifies its entries without a `stat`. Each file in it then gets
  a banner, and `open` raises `PermissionError`, caught at code2ai.py:106,
  so its section is the banner alone. A regular file there thus has a
  section and no tree line. AggregateProps.TreeAndSectionsAgree does not
  cover this case, because the model has no such directory.
- Plumbing: the unused `is_last` parameter and the `__main__` block are left
  out. So is the `exclude_dirs or []` defaulting, which lists take as given.
- TreeProps.RowsComplete: it states at least one row per reached entry.
  Exactly one is TreeProps.RowsOnePerPath, which needs distinct names per
  directory (`WellFormed`), as every real file system has.
- AggregateProps.SectionsComplete: it states at least one section per
  reached file. Exactly one is AggregateProps.SectionsOnePerPath, under
  the same `WellFormed` condition.
- TreeProps.RowTextSlash: it is stated only for names that contain no `/`,
  the case every real file name is in.
- TreeProps.RenderTreeSplits: it is stated only for names without a newline.
  A name that holds one breaks the line structure in the source as well.
