/**
 * scan_directory: building the tree from a directory listing.
 *
 * The file system is an abstract listing: a map from a path to the outcome
 * of reading that directory (open fails, dirread fails, or a sequence of
 * directory entries). A path that is not in the map cannot be opened.
 *
 * The model follows the code as written: children are appended in listing
 * order (nothing sorts them), and a scanned directory's size becomes the sum
 * of its entries' raw `length` fields, not of its children's scanned sizes.
 */
module Scanner {
  import opened Geometry
  import opened FsTree

  /** The directory bit of a qid type. */
  const QTDIR: bv8 := 0x80

  /** One entry as dirread returns it: its name, qid type and length. */
  datatype Dirent = Dirent(name: string, qidType: bv8, length: nat)

  /** The outcome of open followed by dirread on one path. */
  datatype DirRead = OpenFailed | ReadFailed | Read(entries: seq<Dirent>)

  type FileSystem = map<string, DirRead>

  /** What reading `path` yields; an unknown path cannot be opened. */
  function Lookup(fs: FileSystem, path: string): DirRead
  {
    if path in fs then fs[path] else OpenFailed
  }

  /** Whether an entry is a directory: its qid type has QTDIR set. */
  predicate IsDir(e: Dirent)
  {
    e.qidType & QTDIR != 0
  }

  /** Whether an entry is neither "." nor "..", the two that are skipped. */
  predicate NonDot(e: Dirent)
  {
    e.name != "." && e.name != ".."
  }

  /** The path built for an entry of directory `path`. */
  function ChildPath(path: string, name: string): (p: string)
    ensures |p| == |path| + 1 + |name|
    ensures p[..|path|] == path && p[|path|] == '/'
    ensures p[|path| + 1..] == name
  {
    path + "/" + name
  }

  /**
   * The listed paths at least as long as `path`: scanning a subdirectory
   * looks at a strictly longer path, so this set shrinks along every
   * recursive scan and the recursion ends.
   */
  ghost function Deeper(fs: FileSystem, path: string): set<string>
  {
    set k | k in fs.Keys && |k| >= |path|
  }

  lemma DeeperShrinks(fs: FileSystem, path: string, sub: string)
    requires path in fs && |sub| > |path|
    ensures Deeper(fs, sub) < Deeper(fs, path)
  {
    assert path in Deeper(fs, path) && path !in Deeper(fs, sub);
  }

  /** The entries the scan turns into children: all but "." and "..", in order. */
  function NonDots(es: seq<Dirent>): (r: seq<Dirent>)
    ensures |r| <= |es|
  {
    if es == [] then []
    else NonDots(es[..|es| - 1]) + (if NonDot(es[|es| - 1]) then [es[|es| - 1]] else [])
  }

  /** The kept entries are exactly the listed entries that are neither "." nor "..". */
  lemma {:induction false} NonDotsMembers(es: seq<Dirent>)
    ensures forall e :: e in NonDots(es) <==> e in es && NonDot(e)
  {
    if es != [] {
      var init := es[..|es| - 1];
      NonDotsMembers(init);
      assert es == init + [es[|es| - 1]];
    }
  }

  /** The running total of scan_directory after the first n entries: raw lengths of the non-dot ones. */
  function RawTotal(es: seq<Dirent>, n: nat): nat
    requires n <= |es|
  {
    if n == 0 then 0
    else RawTotal(es, n - 1) + (if NonDot(es[n - 1]) then es[n - 1].length else 0)
  }

  /** The sum of the lengths of some entries. */
  function SumLengths(es: seq<Dirent>): nat
  {
    if es == [] then 0 else es[0].length + SumLengths(es[1..])
  }

  /** The value of a node as create_fsnode leaves it (bounds zero, not selected, no children). */
  function Fresh(name: string, path: string, size: nat, isdir: bool): Tree
  {
    Tree(name, path, size, isdir, ZeroRect, false, [])
  }

  /**
   * What scan_directory(path, node) makes of a node whose subtree is `t`:
   * unchanged when open or dirread fails; otherwise one child per non-dot
   * entry appended after the existing children, and the size replaced by
   * the raw total.
   */
  ghost function ScanSpec(fs: FileSystem, path: string, t: Tree): Tree
    decreases Deeper(fs, path), 2, 0
  {
    match Lookup(fs, path)
    case Read(es) =>
      t.(size := RawTotal(es, |es|), kids := t.kids + ScanEntries(fs, path, es, |es|))
    case _ => t
  }

  /** The children the scan of `path` appends for the first n entries of `es`, in order. */
  ghost function ScanEntries(fs: FileSystem, path: string, es: seq<Dirent>, n: nat): seq<Tree>
    requires path in fs && n <= |es|
    decreases Deeper(fs, path), 1, n
  {
    if n == 0 then []
    else
      ScanEntries(fs, path, es, n - 1) + (if NonDot(es[n - 1]) then [EntryTree(fs, path, es[n - 1])] else [])
  }

  /** The child one entry yields: a created node, scanned when it is a directory. */
  ghost function EntryTree(fs: FileSystem, path: string, e: Dirent): Tree
    requires path in fs
    decreases Deeper(fs, path), 0, 0
  {
    var full := ChildPath(path, e.name);
    var leaf := Fresh(e.name, full, e.length, IsDir(e));
    if IsDir(e) then
      DeeperShrinks(fs, path, full);
      ScanSpec(fs, full, leaf)
    else leaf
  }

  /** The sum of two runs of entries' lengths is the sum of the whole. */
  lemma {:induction false} SumLengthsAppend(a: seq<Dirent>, b: seq<Dirent>)
    ensures SumLengths(a + b) == SumLengths(a) + SumLengths(b)
  {
    if a == [] {
      assert a + b == b;
    } else {
      assert (a + b)[1..] == a[1..] + b;
      SumLengthsAppend(a[1..], b);
    }
  }

  /** The loop's running total is the sum of the raw lengths of the non-dot entries seen so far. */
  lemma {:induction false} RawTotalIsSum(es: seq<Dirent>, n: nat)
    requires n <= |es|
    ensures RawTotal(es, n) == SumLengths(NonDots(es[..n]))
  {
    if n > 0 {
      RawTotalIsSum(es, n - 1);
      assert es[..n][..n - 1] == es[..n - 1];
      var last := if NonDot(es[n - 1]) then [es[n - 1]] else [];
      SumLengthsAppend(NonDots(es[..n - 1]), last);
      assert SumLengths(last) == (if NonDot(es[n - 1]) then es[n - 1].length else 0) by {
        if NonDot(es[n - 1]) {
          assert last[1..] == [];
        }
      }
    }
  }

  /**
   * The child an entry of `path` yields: named after the entry, with path
   * path/name, the directory bit from QTDIR, not selected and with zero
   * bounds. A file keeps its raw length and has no children; a directory
   * that can be read gets the raw total of its own listing, one that cannot
   * keeps its raw length and has no children.
   */
  ghost predicate MadeFrom(fs: FileSystem, path: string, e: Dirent, c: Tree)
  {
    var full := ChildPath(path, e.name);
    && c.name == e.name && c.path == full && c.isdir == IsDir(e)
    && !c.selected && c.bounds == ZeroRect
    && (!IsDir(e) || !Lookup(fs, full).Read? ==> c.size == e.length && c.kids == [])
    && (IsDir(e) && Lookup(fs, full).Read? ==>
          c.size == SumLengths(NonDots(Lookup(fs, full).entries)))
  }

  /**
   * Scanning a node keeps its own name, path, flags, bounds and existing
   * children. When the open or the read fails it changes nothing at all;
   * otherwise the children of the listing follow the old ones and the size
   * becomes the sum of the raw lengths of the non-dot entries.
   */
  lemma ScanKeeps(fs: FileSystem, path: string, t: Tree)
    ensures var r := ScanSpec(fs, path, t);
      && r.name == t.name && r.path == t.path && r.isdir == t.isdir
      && r.bounds == t.bounds && r.selected == t.selected
      && |t.kids| <= |r.kids| && r.kids[..|t.kids|] == t.kids
      && (!Lookup(fs, path).Read? ==> r == t)
      && (Lookup(fs, path).Read? ==>
            var es := Lookup(fs, path).entries;
            r.size == SumLengths(NonDots(es)) && r.kids[|t.kids|..] == ScanEntries(fs, path, es, |es|))
  {
    var r := ScanSpec(fs, path, t);
    if Lookup(fs, path).Read? {
      var es := Lookup(fs, path).entries;
      RawTotalIsSum(es, |es|);
      assert es[..|es|] == es;
      assert r.kids == t.kids + ScanEntries(fs, path, es, |es|);
    }
  }

  /** Every child an entry yields is made from that entry. */
  lemma EntryTreeMade(fs: FileSystem, path: string, e: Dirent)
    requires path in fs
    ensures MadeFrom(fs, path, e, EntryTree(fs, path, e))
  {
    var full := ChildPath(path, e.name);
    if IsDir(e) {
      ScanKeeps(fs, full, Fresh(e.name, full, e.length, true));
    }
  }

  /**
   * The children a scanned listing yields: exactly one per entry other than
   * "." and "..", in listing order, each made from its entry.
   */
  lemma {:induction false} ScanEntriesShape(fs: FileSystem, path: string, es: seq<Dirent>, n: nat)
    requires path in fs && n <= |es|
    ensures |ScanEntries(fs, path, es, n)| == |NonDots(es[..n])|
    ensures forall k :: 0 <= k < |NonDots(es[..n])| ==>
              MadeFrom(fs, path, NonDots(es[..n])[k], ScanEntries(fs, path, es, n)[k])
  {
    if n > 0 {
      ScanEntriesShape(fs, path, es, n - 1);
      assert es[..n][..n - 1] == es[..n - 1];
      if NonDot(es[n - 1]) {
        EntryTreeMade(fs, path, es[n - 1]);
      }
    }
  }

  /**
   * The size of a scanned directory is not the total of its subtree: a root
   * whose only entry is an empty-length directory holding a 2048-byte file
   * gets size 0, while that subdirectory gets 2048.
   */
  lemma SizeNotAggregated()
    ensures var fs := map["." := Read([Dirent("sub", QTDIR, 0)]),
                          "./sub" := Read([Dirent("big", 0, 2048)])];
            var r := ScanSpec(fs, ".", Fresh("root", ".", 0, true));
            r.size == 0 && |r.kids| == 1 && r.kids[0].size == 2048
  {
    var fs := map["." := Read([Dirent("sub", QTDIR, 0)]),
                  "./sub" := Read([Dirent("big", 0, 2048)])];
    var root := Read([Dirent("sub", QTDIR, 0)]).entries;
    ScanKeeps(fs, ".", Fresh("root", ".", 0, true));
    ScanEntriesShape(fs, ".", root, 1);
    assert root[..1] == root;
    assert NonDots(root) == root by {
      assert root[..0] == [];
    }
    var sub := Read([Dirent("big", 0, 2048)]).entries;
    assert NonDots(sub) == sub by {
      assert sub[..0] == [];
    }
    assert ChildPath(".", "sub") == "./sub";
    assert IsDir(root[0]) && Lookup(fs, "./sub") == Read(sub);
    assert SumLengths(root) == 0 && SumLengths(sub) == 2048;
  }

  /**
   * No sorting happens: a listing "b", "a" yields the children "b", "a" in
   * that order.
   */
  lemma ListingOrderKept(fs: FileSystem, path: string)
    requires path in fs && fs[path] == Read([Dirent("b", 0, 1), Dirent("a", 0, 2)])
    ensures var r := ScanSpec(fs, path, Fresh("d", path, 0, true));
            |r.kids| == 2 && r.kids[0].name == "b" && r.kids[1].name == "a"
  {
    var es := fs[path].entries;
    assert NonDot(es[0]) && NonDot(es[1]);
    assert ScanEntries(fs, path, es, 1) == [EntryTree(fs, path, es[0])];
    assert ScanEntries(fs, path, es, 2) == [EntryTree(fs, path, es[0]), EntryTree(fs, path, es[1])];
    EntryTreeMade(fs, path, es[0]);
    EntryTreeMade(fs, path, es[1]);
  }

  /**
   * scan_directory(path, parent). On a failed open or dirread nothing
   * changes. Otherwise, for each entry other than "." and "..", a node is
   * created with the entry's name, the path path/name, the entry's length
   * and the QTDIR bit, appended to parent, and scanned in turn when it is a
   * directory; finally parent's size becomes the sum of the raw lengths.
   */
  method ScanDirectory(fs: FileSystem, path: string, parent: FsNode)
    requires parent.Valid()
    modifies parent`size, parent`children, parent`nchildren, parent`maxchildren,
             parent`kids, parent`Nodes, parent`Arrays, parent.children
    ensures parent.Valid()
    ensures parent.Abs() == ScanSpec(fs, path, old(parent.Abs()))
    ensures old(parent.Nodes) <= parent.Nodes && fresh(parent.Nodes - old(parent.Nodes))
    ensures old(parent.Arrays) <= parent.Arrays && fresh(parent.Arrays - old(parent.Arrays))
    decreases Deeper(fs, path), 3, 0
  {
    var listing := Lookup(fs, path);
    if !listing.Read? {
      return;
    }
    var total := AppendEntries(fs, path, parent, listing.entries);
    label Scanned:
    parent.size := total;
    ScalarsWritten@Scanned(parent);
  }

  /**
   * The loop of scan_directory over the entries of `path`: every entry
   * other than "." and ".." becomes a child in listing order; the result is
   * the running total of their raw lengths. The parent's size is not touched.
   */
  method AppendEntries(fs: FileSystem, path: string, parent: FsNode, dirents: seq<Dirent>)
      returns (total: nat)
    requires path in fs && parent.Valid()
    modifies parent`children, parent`nchildren, parent`maxchildren,
             parent`kids, parent`Nodes, parent`Arrays, parent.children
    ensures parent.Valid()
    ensures parent.Abs() == old(parent.Abs()).(kids := old(parent.Abs()).kids + ScanEntries(fs, path, dirents, |dirents|))
    ensures total == RawTotal(dirents, |dirents|)
    ensures Grew(parent)
    decreases Deeper(fs, path), 2, 0
  {
    ghost var t0 := parent.Abs();
    total := 0;
    var i := 0;
    while i < |dirents|
      invariant 0 <= i <= |dirents|
      invariant parent.Valid()
      invariant parent.Abs() == t0.(kids := t0.kids + ScanEntries(fs, path, dirents, i))
      invariant total == RawTotal(dirents, i)
      invariant old(parent.Nodes) <= parent.Nodes && old(parent.Arrays) <= parent.Arrays
      invariant forall n :: n in parent.Nodes ==> n in old(parent.Nodes) || fresh(n)
      invariant forall a :: a in parent.Arrays ==> a in old(parent.Arrays) || fresh(a)
      invariant parent.children == old(parent.children) || fresh(parent.children)
    {
      var len := ScanStep(fs, path, parent, dirents, i, t0);
      total := total + len;
      i := i + 1;
    }
  }

  /**
   * One pass of scan_directory's loop over entry i: "." and ".." are
   * skipped; any other entry becomes the next child. The loop's value
   * extends by the entry's child and the total by its raw length.
   */
  method ScanStep(fs: FileSystem, path: string, parent: FsNode, dirents: seq<Dirent>, i: nat, ghost t0: Tree)
      returns (len: nat)
    requires path in fs && i < |dirents| && parent.Valid()
    requires parent.Abs() == t0.(kids := t0.kids + ScanEntries(fs, path, dirents, i))
    modifies parent`children, parent`nchildren, parent`maxchildren,
             parent`kids, parent`Nodes, parent`Arrays, parent.children
    ensures parent.Valid()
    ensures parent.Abs() == t0.(kids := t0.kids + ScanEntries(fs, path, dirents, i + 1))
    ensures len == RawTotal(dirents, i + 1) - RawTotal(dirents, i)
    ensures Grew(parent)
    decreases Deeper(fs, path), 1, 0
  {
    var e := dirents[i];
    if !NonDot(e) {
      return 0;
    }
    ghost var before := parent.Abs();
    label Start:
    var child := ScanChild(fs, path, parent, e);
    AbsUnchanged@Start(parent);
    Adopt(parent, child);
    Extend(before, t0, ScanEntries(fs, path, dirents, i), EntryTree(fs, path, e));
    len := e.length;
  }

  /** Appending one child's value to a value that already extends t0 by `added`. */
  lemma Extend(t: Tree, t0: Tree, added: seq<Tree>, child: Tree)
    requires t == t0.(kids := t0.kids + added)
    ensures t.(kids := t.kids + [child]) == t0.(kids := t0.kids + (added + [child]))
  {

  }

  /**
   * create_fsnode for an entry of `path`, followed by scan_directory of the
   * new node when the entry is a directory. Only new objects are touched.
   */
  method ScanChild(fs: FileSystem, path: string, parent: FsNode, e: Dirent) returns (child: FsNode)
    requires path in fs
    ensures fresh(child) && fresh(child.Nodes) && fresh(child.Arrays)
    ensures child.Valid() && child.parent == parent
    ensures child.Abs() == EntryTree(fs, path, e)
    ensures parent.Nodes !! child.Nodes && parent.Arrays !! child.Arrays
    decreases Deeper(fs, path), 0, 0
  {
    var full := ChildPath(path, e.name);
    var isdir := e.qidType & QTDIR != 0;
    child := new FsNode(e.name, full, e.length, isdir, parent);
    assert child.Abs() == Fresh(e.name, full, e.length, isdir);
    if isdir {
      DeeperShrinks(fs, path, full);
      ScanDirectory(fs, full, child);
    }
  }

  /** add_child for a child whose subtree is complete and disjoint from the parent's. */
  method Adopt(parent: FsNode, child: FsNode)
    requires parent.Valid() && child.Valid() && child.parent == parent
    requires parent.Nodes !! child.Nodes && parent.Arrays !! child.Arrays
    modifies parent`children, parent`nchildren, parent`maxchildren,
             parent`kids, parent`Nodes, parent`Arrays, parent.children
    ensures parent.Valid() && parent.kids == old(parent.kids) + [child]
    ensures parent.Abs() == old(parent.Abs()).(kids := old(parent.Abs()).kids + [old(child.Abs())])
    ensures parent.Nodes == old(parent.Nodes) + child.Nodes
    ensures parent.Arrays == old(parent.Arrays) + child.Arrays + {parent.children}
    ensures parent.children == old(parent.children) || fresh(parent.children)
    ensures fresh(parent.Arrays - old(parent.Arrays) - child.Arrays)
  {
    assert parent.children != null ==> parent.children in parent.Arrays;
    AddChild(parent, child);
    AbsUnchanged(child);
    AppendedAbs(parent);
  }
}
