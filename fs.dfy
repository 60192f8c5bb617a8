/**
 * The directory tree both components walk, as a value: what `os.listdir`,
 * `os.path.isdir`, `os.path.isfile` and `open(...).read()` would report,
 * with `PermissionError` and read failures turned into data.  Also the
 * exclusion configuration and the listing helpers: filtering a listing
 * (the list comprehensions) and sorting it by name (`sorted`).
 */
module Fs {
  import opened Text
  import opened Glob

  /** What reading a regular file as UTF-8 text gives. */
  datatype Content =
    | Decoded(text: string)   // the text as read (newlines already translated)
    | Undecodable             // UnicodeDecodeError
    | ReadError               // any other exception while opening or reading

  datatype Node =
    | Dir(name: string, children: seq<Node>, readable: bool)  // readable == false: listing raises PermissionError; listing and entering stand or fall together
    | File(name: string, content: Content)                   // a regular file
    | Special(name: string)                                  // a dangling link or a socket: neither, and opening it raises

  /** The two pattern lists, `exclude_dirs` and `exclude_exts` (matched against whole file names). */
  datatype Exclusions = Exclusions(dirs: seq<string>, exts: seq<string>)

  predicate DirExcluded(n: Node, ex: Exclusions)
  {
    AnyMatch(n.name, ex.dirs)
  }

  predicate FileExcluded(n: Node, ex: Exclusions)
  {
    AnyMatch(n.name, ex.exts)
  }

  /** `[x for x in s if keep(x)]`. */
  function Filter(s: seq<Node>, keep: Node -> bool): (r: seq<Node>)
    ensures |r| <= |s|
    ensures forall x :: x in r <==> x in s && keep(x)
  {
    if |s| == 0 then []
    else if keep(s[0]) then [s[0]] + Filter(s[1..], keep)
    else Filter(s[1..], keep)
  }

  /**
   * The comprehension keeps relative order: filtering a listing split in
   * two gives what it keeps of the first part, then what it keeps of the
   * second.
   */
  lemma {:induction false} FilterAppend(a: seq<Node>, b: seq<Node>, keep: Node -> bool)
    ensures Filter(a + b, keep) == Filter(a, keep) + Filter(b, keep)
  {
    if |a| == 0 {
      assert a + b == b;
    } else {
      assert (a + b)[0] == a[0] && (a + b)[1..] == a[1..] + b;
      FilterAppend(a[1..], b, keep);
    }
  }

  /** Filtering a listing with one more element at the end. */
  lemma {:induction false} FilterSnoc(s: seq<Node>, x: Node, keep: Node -> bool)
    ensures Filter(s + [x], keep) == Filter(s, keep) + (if keep(x) then [x] else [])
  {
    if |s| == 0 {
      assert s + [x] == [x] && [x][1..] == [];
    } else {
      assert (s + [x])[0] == s[0] && (s + [x])[1..] == s[1..] + [x];
      FilterSnoc(s[1..], x, keep);
    }
  }

  /** Filtering keeps every kept element as often as it occurred and drops the rest. */
  lemma {:induction false} FilterMultiset(s: seq<Node>, keep: Node -> bool, x: Node)
    ensures multiset(Filter(s, keep))[x] == if keep(x) then multiset(s)[x] else 0
  {
    if |s| > 0 {
      FilterMultiset(s[1..], keep, x);
      assert s == [s[0]] + s[1..];
    }
  }

  predicate SortedByName(s: seq<Node>)
  {
    forall i, j :: 0 <= i < j < |s| ==> LexLe(s[i].name, s[j].name)
  }

  lemma {:induction false} FilterSorted(s: seq<Node>, keep: Node -> bool)
    requires SortedByName(s)
    ensures SortedByName(Filter(s, keep))
  {
    if |s| > 0 {
      FilterSorted(s[1..], keep);
      var rest := Filter(s[1..], keep);
      if keep(s[0]) {
        forall j | 0 <= j < |rest| ensures LexLe(s[0].name, rest[j].name) {
          assert rest[j] in s[1..];
        }
      }
    }
  }

  /** Inserts `x` before the first element whose name it does not exceed. */
  function Insert(x: Node, s: seq<Node>): (r: seq<Node>)
    ensures multiset(r) == multiset(s) + multiset{x}
  {
    if |s| == 0 then [x]
    else if LexLe(x.name, s[0].name) then [x] + s
    else
      assert s == [s[0]] + s[1..];
      [s[0]] + Insert(x, s[1..])
  }

  lemma {:induction false} InsertSorted(x: Node, s: seq<Node>)
    requires SortedByName(s)
    ensures SortedByName(Insert(x, s))
  {
    if |s| > 0 {
      if LexLe(x.name, s[0].name) {
        forall j | 0 < j < |s| + 1 ensures LexLe(x.name, ([x] + s)[j].name) {
          if j > 1 { LexLeTrans(x.name, s[0].name, s[j - 1].name); }
        }
      } else {
        InsertSorted(x, s[1..]);
        var rest := Insert(x, s[1..]);
        LexLeTotal(x.name, s[0].name);
        forall j | 0 <= j < |rest| ensures LexLe(s[0].name, rest[j].name) {
          assert rest[j] in multiset(rest);
          if rest[j] != x {
            assert rest[j] in s[1..];
          }
        }
      }
    }
  }

  /** `sorted(os.listdir(...))`: the listing ordered by name. */
  function SortByName(s: seq<Node>): (r: seq<Node>)
    ensures multiset(r) == multiset(s)
  {
    if |s| == 0 then []
    else
      assert s == [s[0]] + s[1..];
      Insert(s[0], SortByName(s[1..]))
  }

  lemma {:induction false} SortByNameSorted(s: seq<Node>)
    ensures SortedByName(SortByName(s))
  {
    if |s| > 0 {
      SortByNameSorted(s[1..]);
      InsertSorted(s[0], SortByName(s[1..]));
    }
  }

  /** The names within one directory listing are distinct, as on a real file system. */
  predicate UniqueNames(s: seq<Node>)
  {
    forall i, j :: 0 <= i < j < |s| ==> s[i].name != s[j].name
  }

  lemma SameNameSameNode(s: seq<Node>, a: Node, b: Node)
    requires UniqueNames(s) && a in s && b in s && a.name == b.name
    ensures a == b
  {
    var i :| 0 <= i < |s| && s[i] == a;
    var j :| 0 <= j < |s| && s[j] == b;
    assert !(i < j) && !(j < i);
  }

  /** Within a listing of distinct names no node occurs twice. */
  lemma {:induction false} UniqueNamesOnce(s: seq<Node>, x: Node)
    requires UniqueNames(s)
    ensures multiset(s)[x] <= 1
  {
    if |s| > 0 {
      var rest := s[1..];
      assert s == [s[0]] + rest;
      forall i, j | 0 <= i < j < |rest| ensures rest[i].name != rest[j].name {
        assert rest[i] == s[i + 1] && rest[j] == s[j + 1];
      }
      UniqueNamesOnce(rest, x);
    }
  }

  /** Taking part of a listing of distinct names (as a sub-multiset) keeps the names distinct. */
  lemma UniqueNamesSub(s: seq<Node>, t: seq<Node>)
    requires UniqueNames(s) && multiset(t) <= multiset(s)
    ensures UniqueNames(t)
  {
    forall i, j | 0 <= i < j < |t| ensures t[i].name != t[j].name {
      if t[i].name == t[j].name {
        var x := t[i];
        assert t[i] in multiset(t) && t[j] in multiset(t);
        SameNameSameNode(s, t[i], t[j]);
        assert t == t[..j] + t[j..];
        assert t[..j][i] == x && t[j..][0] == x;
        assert multiset(t)[x] == multiset(t[..j])[x] + multiset(t[j..])[x];
        UniqueNamesOnce(s, x);
        assert false;
      }
    }
  }

  lemma FilterUnique(s: seq<Node>, keep: Node -> bool)
    requires UniqueNames(s)
    ensures UniqueNames(Filter(s, keep))
  {
    forall x ensures multiset(Filter(s, keep))[x] <= multiset(s)[x] {
      FilterMultiset(s, keep, x);
    }
    UniqueNamesSub(s, Filter(s, keep));
  }

  /** Every directory of the tree has distinct entry names. */
  ghost predicate WellFormed(n: Node)
  {
    n.Dir? ==> UniqueNames(n.children) && forall c :: c in n.children ==> WellFormed(c)
  }

  /** `n` is what the file system holds at the name path `t` below `d` (no exclusion involved). */
  ghost predicate At(d: Node, t: seq<string>, n: Node)
    decreases |t|
  {
    if |t| == 0 then n == d
    else d.Dir? && exists c :: c in d.children && c.name == t[0] && At(c, t[1..], n)
  }

  /**
   * `leaf` lies at the name path `t` below the directory `d`, and a walk
   * that lists only readable directories and never enters a directory whose
   * name matches `ex.dirs` gets to it: every directory on the way, `d`
   * included, is readable and every one below `d` is not excluded.  Nothing
   * is said about `leaf` itself.
   */
  ghost predicate Reaches(d: Node, t: seq<string>, ex: Exclusions, leaf: Node)
    decreases |t|
  {
    d.Dir? && d.readable && |t| > 0 &&
    exists c :: c in d.children && c.name == t[0] &&
      if |t| == 1 then c == leaf
      else c.Dir? && !DirExcluded(c, ex) && Reaches(c, t[1..], ex, leaf)
  }

  /** The first step of a reaching walk: the entry of `d` it goes through. */
  lemma ReachesFirst(d: Node, t: seq<string>, ex: Exclusions, leaf: Node) returns (c: Node)
    requires Reaches(d, t, ex, leaf)
    ensures d.Dir? && d.readable && c in d.children && c.name == t[0]
    ensures |t| == 1 ==> c == leaf
    ensures |t| > 1 ==> c.Dir? && !DirExcluded(c, ex) && Reaches(c, t[1..], ex, leaf)
  {
    c :| c in d.children && c.name == t[0] &&
      if |t| == 1 then c == leaf
      else c.Dir? && !DirExcluded(c, ex) && Reaches(c, t[1..], ex, leaf);
  }

  /** A readable directory's entries are reached in one step. */
  lemma ReachesChild(d: Node, ex: Exclusions, c: Node)
    requires d.Dir? && d.readable && c in d.children
    ensures Reaches(d, [c.name], ex, c)
  {
  }

  /** A walk into a kept entry continues below it. */
  lemma ReachesStep(d: Node, c: Node, t: seq<string>, ex: Exclusions, leaf: Node)
    requires d.Dir? && d.readable && c in d.children && c.Dir? && !DirExcluded(c, ex)
    requires Reaches(c, t, ex, leaf)
    ensures Reaches(d, [c.name] + t, ex, leaf)
  {
    assert ([c.name] + t)[1..] == t;
  }

  /**
   * In a well-formed tree a path names one node, so a walk that gets past the
   * node at `t` entered it: kept, readable and a directory.
   */
  lemma {:induction false} ReachesThrough(d: Node, t: seq<string>, u: seq<string>, ex: Exclusions, c: Node, leaf: Node)
    requires WellFormed(d) && At(d, t, c) && Reaches(d, t + u, ex, leaf)
    ensures |t| > 0 && u == [] ==> leaf == c
    ensures |t| > 0 && u != [] ==> c.Dir? && c.readable && !DirExcluded(c, ex) && Reaches(c, u, ex, leaf)
    ensures |t| == 0 ==> c == d
    decreases |t|
  {
    if |t| > 0 {
      var w :| w in d.children && w.name == t[0] && At(w, t[1..], c);
      var v := ReachesFirst(d, t + u, ex, leaf);
      SameNameSameNode(d.children, v, w);
      assert (t + u)[1..] == t[1..] + u;
      if |t| > 1 {
        ReachesThrough(w, t[1..], u, ex, c, leaf);
      } else {
        assert (t + u)[1..] == u && c == w;
      }
    }
  }

  /** Every name on the tree (the root's and all below it) avoids the character `ch`. */
  ghost predicate NamesAvoid(n: Node, ch: char)
  {
    ch !in n.name && (n.Dir? ==> forall c :: c in n.children ==> NamesAvoid(c, ch))
  }

  lemma {:induction false} ReachedNameAvoids(d: Node, t: seq<string>, ex: Exclusions, leaf: Node, ch: char)
    requires NamesAvoid(d, ch) && Reaches(d, t, ex, leaf)
    ensures ch !in leaf.name
    decreases |t|
  {
    var c :| c in d.children && c.name == t[0] &&
      if |t| == 1 then c == leaf
      else c.Dir? && !DirExcluded(c, ex) && Reaches(c, t[1..], ex, leaf);
    if |t| > 1 {
      ReachedNameAvoids(c, t[1..], ex, leaf, ch);
    }
  }
}
