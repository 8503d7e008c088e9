/**
 * The file explorer's tree builder and its expand/collapse toggle. The
 * builder turns the project's flat list of '/'-separated paths into a tree
 * with one directory node per distinct path prefix. The tree is kept as the
 * builder keeps it: the root list, the directories in the order they were
 * first seen, and each directory's child list under the directory's path
 * (the key of the builder's `directories` map).
 */
module FileTree {
  import opened Wrappers
  import opened Text

  datatype FileItem = FileItem(id: string, path: string, language: string)

  /** A tree node; a file whose path has no segment at all gets no name (`parts[-1]` is undefined). */
  datatype Node =
    | FileLeaf(fileName: Option<string>, path: string, language: string)
    | Directory(dirName: string, path: string)

  /** Where the builder appends: the root list or a directory's child list. */
  datatype Level = Root | Under(dir: string)

  datatype Tree = Tree(root: seq<Node>, dirs: seq<string>, children: map<string, seq<Node>>)

  const EmptyTree := Tree([], [], map[])

  /** The directories are listed once each, and they are exactly the directories with a child list. */
  ghost predicate WellFormed(t: Tree) {
    && (forall i, j :: 0 <= i < j < |t.dirs| ==> t.dirs[i] != t.dirs[j])
    && (forall d :: d in t.dirs <==> d in t.children)
  }

  predicate LevelIn(t: Tree, level: Level) {
    level.Under? ==> level.dir in t.children
  }

  /** `path.split('/').filter(Boolean)`, scanning with the segment read so far in `acc`. */
  function SegmentsFrom(s: string, acc: string): (parts: seq<string>)
    requires '/' !in acc
    ensures forall i :: 0 <= i < |parts| ==> parts[i] != "" && '/' !in parts[i]
    decreases |s|
  {
    if s == [] then (if acc == "" then [] else [acc])
    else if s[0] == '/' then (if acc == "" then [] else [acc]) + SegmentsFrom(s[1..], "")
    else SegmentsFrom(s[1..], acc + [s[0]])
  }

  function Segments(path: string): (parts: seq<string>)
    ensures forall i :: 0 <= i < |parts| ==> parts[i] != "" && '/' !in parts[i]
  {
    SegmentsFrom(path, "")
  }

  /** Scanning a '/'-free stretch extends the pending segment, which ends up as the only piece. */
  lemma {:induction false} SegmentsFromFree(s: string, acc: string)
    requires '/' !in acc && '/' !in s
    ensures SegmentsFrom(s, acc) == (if acc + s == "" then [] else [acc + s])
    decreases |s|
  {
    if s != [] {
      assert s[0] in s;
      assert '/' !in s[1..] by { assert forall c :: c in s[1..] ==> c in s; }
      SegmentsFromFree(s[1..], acc + [s[0]]);
      assert acc + [s[0]] + s[1..] == acc + s;
    } else {
      assert acc + s == acc;
    }
  }

  /** Scanning across a '/' closes the pending segment and starts afresh. */
  lemma {:induction false} SegmentsFromSplit(a: string, acc: string, b: string)
    requires '/' !in acc
    ensures SegmentsFrom(a + "/" + b, acc) == SegmentsFrom(a, acc) + SegmentsFrom(b, "")
    decreases |a|
  {
    if a == [] {
      assert a + "/" + b == ['/'] + b;
      assert (['/'] + b)[1..] == b;
    } else {
      assert (a + "/" + b)[0] == a[0];
      assert (a + "/" + b)[1..] == a[1..] + "/" + b;
      if a[0] == '/' {
        SegmentsFromSplit(a[1..], "", b);
      } else {
        SegmentsFromSplit(a[1..], acc + [a[0]], b);
      }
    }
  }

  /** The pieces of `a/b` are the pieces of `a` followed by those of `b`: every '/' separates, and empty pieces are dropped. */
  lemma SegmentsSplit(a: string, b: string)
    ensures Segments(a + "/" + b) == Segments(a) + Segments(b)
  {
    SegmentsFromSplit(a, "", b);
  }

  /** A non-empty '/'-free string is a single piece. */
  lemma SegmentsFree(s: string)
    requires s != "" && '/' !in s
    ensures Segments(s) == [s]
  {
    SegmentsFromFree(s, "");
    assert "" + s == s;
  }

  /** `currentPath` after `n` steps: '/' before each of the first `n` segments. */
  function DirPath(parts: seq<string>, n: nat): string
    requires n <= |parts|
  {
    if n == 0 then "" else DirPath(parts, n - 1) + "/" + parts[n - 1]
  }

  /** The leaf a file becomes: its last segment as name, its own path and language. */
  function Leaf(f: FileItem): Node {
    var parts := Segments(f.path);
    FileLeaf(if |parts| > 0 then Some(parts[|parts| - 1]) else None, f.path, f.language)
  }

  /** The directory node for a path: named after the path's last segment. */
  function DirNode(path: string): Node {
    Directory(AfterLast(path, '/'), path)
  }

  function DirNodes(ds: seq<string>): (nodes: seq<Node>)
    ensures |nodes| == |ds|
  {
    seq(|ds|, i requires 0 <= i < |ds| => DirNode(ds[i]))
  }

  function Leaves(files: seq<FileItem>): (nodes: seq<Node>)
    ensures |nodes| == |files|
  {
    seq(|files|, i requires 0 <= i < |files| => Leaf(files[i]))
  }

  /**
   * The directory paths the builder's inner loop visits from step `i` on,
   * `path` being `currentPath` at that step.
   */
  function PathsFrom(parts: seq<string>, i: nat, path: string): set<string>
    decreases |parts| - i
  {
    if i + 1 >= |parts| then {} else {path + "/" + parts[i]} + PathsFrom(parts, i + 1, path + "/" + parts[i])
  }

  /** The directory paths a file needs. */
  function PrefixesOf(f: FileItem): set<string> {
    PathsFrom(Segments(f.path), 0, "")
  }

  function Prefixes(files: seq<FileItem>): set<string> {
    if files == [] then {} else Prefixes(files[..|files| - 1]) + PrefixesOf(files[|files| - 1])
  }

  /** Append a node to a level. */
  function Push(t: Tree, level: Level, node: Node): (r: Tree)
    requires LevelIn(t, level)
    ensures r.dirs == t.dirs && r.children.Keys == t.children.Keys
  {
    match level
    case Root => t.(root := t.root + [node])
    case Under(d) => t.(children := t.children[d := t.children[d] + [node]])
  }

  /**
   * The builder's inner loop from step `i` on, `path` being `currentPath`:
   * enter the directory for each proper prefix, creating it and appending it
   * to the current level the first time it is seen. Returns the tree and the
   * level the file goes into.
   */
  function Descend(t: Tree, parts: seq<string>, i: nat, level: Level, path: string): (r: (Tree, Level))
    requires i <= |parts| && LevelIn(t, level)
    ensures LevelIn(r.0, r.1)
    decreases |parts| - i
  {
    if i + 1 >= |parts| then (t, level)
    else
      var p := path + "/" + parts[i];
      if p in t.children then Descend(t, parts, i + 1, Under(p), p)
      else
        var grown := t.(dirs := t.dirs + [p], children := t.children[p := []]);
        Descend(Push(grown, level, Directory(parts[i], p)), parts, i + 1, Under(p), p)
  }

  /** One step of the builder's outer loop. */
  function AddFile(t: Tree, f: FileItem): Tree {
    var parts := Segments(f.path);
    if |parts| == 1 then Push(t, Root, Leaf(f))
    else
      var r := Descend(t, parts, 0, Root, "");
      Push(r.0, r.1, Leaf(f))
  }

  /** The tree for a list of files, added in list order. */
  function Build(files: seq<FileItem>): Tree {
    if files == [] then EmptyTree else AddFile(Build(files[..|files| - 1]), files[|files| - 1])
  }

  /** buildFileTree: the builder's two loops. */
  method BuildFileTree(files: seq<FileItem>) returns (tree: Tree)
    ensures tree == Build(files)
  {
    tree := EmptyTree;
    var k := 0;
    while k < |files|
      invariant 0 <= k <= |files|
      invariant tree == Build(files[..k])
    {
      var file := files[k];
      var parts := Segments(file.path);
      var leaf := FileLeaf(if |parts| > 0 then Some(parts[|parts| - 1]) else None, file.path, file.language);
      if |parts| == 1 {
        tree := tree.(root := tree.root + [leaf]);
      } else {
        ghost var start := tree;
        var currentPath := "";
        var level := Root;
        var i := 0;
        while i + 1 < |parts|
          invariant 0 <= i <= |parts|
          invariant i > 0 ==> i + 1 <= |parts|
          invariant LevelIn(tree, level)
          invariant Descend(tree, parts, i, level, currentPath) == Descend(start, parts, 0, Root, "")
        {
          currentPath := currentPath + "/" + parts[i];
          if currentPath !in tree.children {
            tree := tree.(dirs := tree.dirs + [currentPath], children := tree.children[currentPath := []]);
            var dir := Directory(parts[i], currentPath);
            match level
            case Root => tree := tree.(root := tree.root + [dir]);
            case Under(d) => tree := tree.(children := tree.children[d := tree.children[d] + [dir]]);
          }
          level := Under(currentPath);
          i := i + 1;
        }
        match level
        case Root => tree := tree.(root := tree.root + [leaf]);
        case Under(d) => tree := tree.(children := tree.children[d := tree.children[d] + [leaf]]);
      }
      assert files[..k + 1][..k] == files[..k];
      k := k + 1;
    }
    assert files[..k] == files;
  }

  /** Every child list, in directory order. */
  function Concat(children: map<string, seq<Node>>, ds: seq<string>): seq<Node>
    requires forall d :: d in ds ==> d in children
    decreases |ds|
  {
    if ds == [] then [] else Concat(children, ds[..|ds| - 1]) + children[ds[|ds| - 1]]
  }

  /** Every node of the tree: the root list, then each directory's children. */
  function AllNodes(t: Tree): seq<Node>
    requires forall d :: d in t.dirs ==> d in t.children
  {
    t.root + Concat(t.children, t.dirs)
  }

  lemma {:induction false} ConcatSame(ch: map<string, seq<Node>>, ch': map<string, seq<Node>>, ds: seq<string>)
    requires forall d :: d in ds ==> d in ch && d in ch' && ch[d] == ch'[d]
    ensures Concat(ch, ds) == Concat(ch', ds)
    decreases |ds|
  {
    if ds != [] {
      ConcatSame(ch, ch', ds[..|ds| - 1]);
    }
  }

  /** Appending to one directory's list adds exactly that node to the concatenation. */
  lemma {:induction false} ConcatAppendAt(ch: map<string, seq<Node>>, ds: seq<string>, d: string, node: Node)
    requires forall e :: e in ds ==> e in ch
    requires forall i, j :: 0 <= i < j < |ds| ==> ds[i] != ds[j]
    requires d in ds
    ensures multiset(Concat(ch[d := ch[d] + [node]], ds)) == multiset(Concat(ch, ds)) + multiset{node}
    decreases |ds|
  {
    var ch' := ch[d := ch[d] + [node]];
    var init := ds[..|ds| - 1];
    var last := ds[|ds| - 1];
    if last == d {
      assert d !in init;
      ConcatSame(ch, ch', init);
    } else {
      assert d in init by {
        var j :| 0 <= j < |ds| && ds[j] == d;
        assert j < |ds| - 1;
        assert init[j] == d;
      }
      ConcatAppendAt(ch, init, d, node);
    }
  }

  /** Pushing a node adds exactly that node to the tree. */
  lemma PushAdds(t: Tree, level: Level, node: Node)
    requires WellFormed(t) && LevelIn(t, level)
    ensures WellFormed(Push(t, level, node))
    ensures multiset(AllNodes(Push(t, level, node))) == multiset(AllNodes(t)) + multiset{node}
  {
    match level
    case Root =>
      ConcatSame(t.children, Push(t, level, node).children, t.dirs);
    case Under(d) =>
      ConcatAppendAt(t.children, t.dirs, d, node);
  }

  /** Registering a new directory with an empty child list adds no node. */
  lemma GrowAddsNothing(t: Tree, p: string)
    requires WellFormed(t) && p !in t.children
    ensures var grown := t.(dirs := t.dirs + [p], children := t.children[p := []]);
      && WellFormed(grown) && AllNodes(grown) == AllNodes(t)
  {
    var grown := t.(dirs := t.dirs + [p], children := t.children[p := []]);
    assert grown.dirs[..|grown.dirs| - 1] == t.dirs;
    ConcatSame(t.children, grown.children, t.dirs);
  }

  /** A directory is named after the segment that ends its path. */
  lemma DirNodeName(path: string, segment: string)
    requires '/' !in segment
    ensures DirNode(path + "/" + segment) == Directory(segment, path + "/" + segment)
  {
    assert path + "/" + segment == path + ['/'] + segment;
    AfterLastSkips(path, '/', segment);
  }

  lemma DirNodesSplit(ds: seq<string>, m: nat)
    requires m <= |ds|
    ensures DirNodes(ds) == DirNodes(ds[..m]) + DirNodes(ds[m..])
  {
  }

  /**
   * What the inner loop did to `t`, ending in `r`: it added one directory
   * node, named after its last segment, for each prefix not seen before.
   */
  ghost predicate Descended(t: Tree, r: Tree)
    requires WellFormed(t)
  {
    && WellFormed(r)
    && |t.dirs| <= |r.dirs| && r.dirs[..|t.dirs|] == t.dirs
    && multiset(AllNodes(r)) == multiset(AllNodes(t)) + multiset(DirNodes(r.dirs[|t.dirs|..]))
  }

  /** Bookkeeping of one fresh prefix `p`: the new directory's node joins those created after it. */
  lemma FreshBookkeeping(d0: seq<string>, d1: seq<string>, d: seq<string>, p: string,
                         m0: multiset<Node>, m1: multiset<Node>, m: multiset<Node>)
    requires d1 == d0 + [p] && |d1| <= |d| && d[..|d1|] == d1
    requires m1 == m0 + multiset{DirNode(p)} && m == m1 + multiset(DirNodes(d[|d1|..]))
    ensures |d0| <= |d| && d[..|d0|] == d0
    ensures m == m0 + multiset(DirNodes(d[|d0|..]))
  {
    assert d[..|d0|] == d1[..|d0|];
    assert d[|d0|..] == [p] + d[|d1|..];
    assert DirNodes(d[|d0|..]) == [DirNode(p)] + DirNodes(d[|d1|..]);
  }

  /** The inner loop registers exactly the directories it visits. */
  lemma {:induction false} DescendKeys(t: Tree, parts: seq<string>, i: nat, level: Level, path: string)
    requires LevelIn(t, level) && i <= |parts|
    ensures Descend(t, parts, i, level, path).0.children.Keys == t.children.Keys + PathsFrom(parts, i, path)
    decreases |parts| - i
  {
    if i + 1 < |parts| {
      var p := path + "/" + parts[i];
      if p in t.children {
        DescendKeys(t, parts, i + 1, Under(p), p);
      } else {
        var grown := t.(dirs := t.dirs + [p], children := t.children[p := []]);
        DescendKeys(Push(grown, level, Directory(parts[i], p)), parts, i + 1, Under(p), p);
      }
    }
  }

  /** Started at `currentPath = DirPath(parts, i)`, the inner loop ends in the file's parent directory. */
  lemma {:induction false} DescendLevel(t: Tree, parts: seq<string>, i: nat, level: Level)
    requires LevelIn(t, level) && i <= |parts|
    ensures var r := Descend(t, parts, i, level, DirPath(parts, i));
      && (i + 1 < |parts| ==> r.1 == Under(DirPath(parts, |parts| - 1)))
      && (i + 1 >= |parts| ==> r.1 == level)
    decreases |parts| - i
  {
    if i + 1 < |parts| {
      var p := DirPath(parts, i) + "/" + parts[i];
      assert p == DirPath(parts, i + 1);
      if p in t.children {
        DescendLevel(t, parts, i + 1, Under(p));
      } else {
        var grown := t.(dirs := t.dirs + [p], children := t.children[p := []]);
        DescendLevel(Push(grown, level, Directory(parts[i], p)), parts, i + 1, Under(p));
      }
    }
  }

  /** The paths the inner loop visits are the prefixes of the file's segments. */
  lemma {:induction false} PathsFromArePrefixes(parts: seq<string>, i: nat)
    requires i <= |parts|
    ensures PathsFrom(parts, i, DirPath(parts, i)) == set n | i < n < |parts| :: DirPath(parts, n)
    decreases |parts| - i
  {
    if i + 1 < |parts| {
      PathsFromArePrefixes(parts, i + 1);
      assert DirPath(parts, i + 1) == DirPath(parts, i) + "/" + parts[i];
      var all := set n | i < n < |parts| :: DirPath(parts, n);
      var later := set n | i + 1 < n < |parts| :: DirPath(parts, n);
      forall x | x in all
        ensures x in {DirPath(parts, i + 1)} + later
      {
        var n :| i < n < |parts| && x == DirPath(parts, n);
        if n > i + 1 {
          assert x in later;
        }
      }
      assert later <= all;
      assert DirPath(parts, i + 1) in all;
    }
  }

  /** The inner loop adds one directory node per prefix it meets for the first time. */
  lemma {:induction false} DescendShape(t: Tree, parts: seq<string>, i: nat, level: Level, path: string)
    requires WellFormed(t) && LevelIn(t, level) && i <= |parts|
    requires forall j :: 0 <= j < |parts| ==> '/' !in parts[j]
    ensures Descended(t, Descend(t, parts, i, level, path).0)
    decreases |parts| - i, 1
  {
    if i + 1 >= |parts| {
      assert t.dirs[|t.dirs|..] == [];
    } else {
      var p := path + "/" + parts[i];
      if p in t.children {
        DescendShape(t, parts, i + 1, Under(p), p);
      } else {
        DescendFresh(t, parts, i, level, path);
      }
    }
  }

  /** The step of the inner loop that meets a new prefix. */
  lemma {:induction false} DescendFresh(t: Tree, parts: seq<string>, i: nat, level: Level, path: string)
    requires WellFormed(t) && LevelIn(t, level) && i + 1 < |parts|
    requires forall j :: 0 <= j < |parts| ==> '/' !in parts[j]
    requires path + "/" + parts[i] !in t.children
    ensures Descended(t, Descend(t, parts, i, level, path).0)
    decreases |parts| - i, 0
  {
    var p := path + "/" + parts[i];
    var grown := t.(dirs := t.dirs + [p], children := t.children[p := []]);
    GrowAddsNothing(t, p);
    var t1 := Push(grown, level, Directory(parts[i], p));
    PushAdds(grown, level, Directory(parts[i], p));
    DirNodeName(path, parts[i]);
    var r := Descend(t1, parts, i + 1, Under(p), p);
    assert r == Descend(t, parts, i, level, path);
    DescendShape(t1, parts, i + 1, Under(p), p);
    FreshBookkeeping(t.dirs, t1.dirs, r.0.dirs, p, multiset(AllNodes(t)), multiset(AllNodes(t1)), multiset(AllNodes(r.0)));
  }

  /** `t` is `t0` with `leaf` and one directory node for each directory registered after those of `t0`. */
  ghost predicate Grows(t0: Tree, t: Tree, leaf: Node)
    requires WellFormed(t0)
  {
    && WellFormed(t)
    && |t0.dirs| <= |t.dirs| && t.dirs[..|t0.dirs|] == t0.dirs
    && multiset(AllNodes(t)) == multiset(AllNodes(t0)) + multiset{leaf} + multiset(DirNodes(t.dirs[|t0.dirs|..]))
  }

  /** Adding one file adds its leaf and one directory node per prefix not seen before. */
  lemma AddFileShape(t: Tree, f: FileItem)
    requires WellFormed(t)
    ensures Grows(t, AddFile(t, f), Leaf(f))
  {
    var parts := Segments(f.path);
    if |parts| == 1 {
      PushAdds(t, Root, Leaf(f));
      assert AddFile(t, f).dirs[|t.dirs|..] == [];
    } else {
      var d := Descend(t, parts, 0, Root, "");
      DescendShape(t, parts, 0, Root, "");
      PushAdds(d.0, d.1, Leaf(f));
    }
  }

  /** Adding one file registers exactly the directories it needs. */
  lemma AddFileKeys(t: Tree, f: FileItem)
    ensures AddFile(t, f).children.Keys == t.children.Keys + PrefixesOf(f)
  {
    var parts := Segments(f.path);
    if |parts| != 1 {
      DescendKeys(t, parts, 0, Root, "");
    }
  }

  /** The directories of `t` are listed once each, and its nodes are `leaves` plus one directory node per directory. */
  ghost predicate Shaped(t: Tree, leaves: seq<Node>) {
    && WellFormed(t)
    && multiset(AllNodes(t)) == multiset(leaves) + multiset(DirNodes(t.dirs))
  }

  /** The built tree's directories are exactly the distinct proper prefixes of the inputs. */
  lemma {:induction false} BuildKeys(files: seq<FileItem>)
    ensures WellFormed(Build(files))
    ensures Build(files).children.Keys == Prefixes(files)
    decreases |files|
  {
    if files != [] {
      var init := files[..|files| - 1];
      BuildKeys(init);
      AddFileShape(Build(init), files[|files| - 1]);
      AddFileKeys(Build(init), files[|files| - 1]);
    }
  }

  /**
   * The built tree holds, counted with multiplicity, one leaf per input file
   * (its path, language and last segment) and one directory node per
   * directory, each directory listed once.
   */
  lemma {:induction false} BuildShape(files: seq<FileItem>)
    ensures Shaped(Build(files), Leaves(files))
    decreases |files|
  {
    if files != [] {
      var init := files[..|files| - 1];
      var last := files[|files| - 1];
      BuildShape(init);
      var t0 := Build(init);
      var t := AddFile(t0, last);
      assert Build(files) == t;
      AddFileShape(t0, last);
      LeavesSnoc(files);
      ShapeStep(t0, t, Leaves(init), Leaf(last));
    }
  }

  lemma LeavesSnoc(files: seq<FileItem>)
    requires files != []
    ensures Leaves(files) == Leaves(files[..|files| - 1]) + [Leaf(files[|files| - 1])]
  {
  }

  /** Bookkeeping of one outer step: the new leaf and the new directories join the earlier ones. */
  lemma ShapeStep(t0: Tree, t: Tree, leaves0: seq<Node>, leaf: Node)
    requires Shaped(t0, leaves0) && Grows(t0, t, leaf)
    ensures Shaped(t, leaves0 + [leaf])
  {
    DirNodesSplit(t.dirs, |t0.dirs|);
  }

  /** A file with a single segment lands in the root list; a deeper one at the end of its parent directory's list. */
  lemma AddFilePlacesLeaf(t: Tree, f: FileItem)
    requires WellFormed(t)
    ensures var parts := Segments(f.path);
      && (|parts| <= 1 ==> AddFile(t, f).root == t.root + [Leaf(f)])
      && (|parts| >= 2 ==>
            var parent := DirPath(parts, |parts| - 1);
            && parent in AddFile(t, f).children
            && |AddFile(t, f).children[parent]| > 0
            && AddFile(t, f).children[parent][|AddFile(t, f).children[parent]| - 1] == Leaf(f))
  {
    var parts := Segments(f.path);
    if |parts| != 1 {
      assert DirPath(parts, 0) == "";
      DescendLevel(t, parts, 0, Root);
    }
  }

  /** The expanded set after clicking `dir`. */
  function Toggled(expanded: set<string>, dir: string): (r: set<string>)
    ensures dir in r <==> dir !in expanded
    ensures forall d :: d != dir ==> (d in r <==> d in expanded)
  {
    if dir in expanded then expanded - {dir} else expanded + {dir}
  }

  /** toggleDirectory: copy the set, then delete or add the clicked directory. */
  method ToggleDirectory(expanded: set<string>, dir: string) returns (next: set<string>)
    ensures next == Toggled(expanded, dir)
  {
    next := expanded;
    if dir in next {
      next := next - {dir};
    } else {
      next := next + {dir};
    }
  }

  /** Clicking a directory twice restores the expanded set. */
  lemma ToggleTwice(expanded: set<string>, dir: string)
    ensures Toggled(Toggled(expanded, dir), dir) == expanded
  {
  }
}
