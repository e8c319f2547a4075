/**
 * The viewer's state: the mode and the `root` and `current` globals, with
 * what the keyboard (navigate, handlekey, switchmode), a left click in
 * main's event loop and the layout call of draw_interface do to them.
 * App.Valid() says that `current` is a node of the tree under `root`, and
 * that the two are nil together.
 */
module Navigation {
  import opened Geometry
  import opened FsTree
  import opened Scanner
  import opened Layout
  import opened HitTest

  datatype Mode = Normal | Navigating | Zooming

  /** The escape key's rune. */
  const Kesc: char := 0x1b as char

  /** The margin around the treemap and the height of the status bar. */
  const MARGIN: int := 20
  const STATUSHEIGHT: int := 30

  /** Whether handlekey hands the key on to navigate. */
  predicate Navigates(m: Mode, key: char)
  {
    m == Normal || key != Kesc
  }

  /**
   * handlekey's effect on the mode: Esc outside NORMAL switches back to
   * NORMAL, and nothing else changes the mode.
   */
  function ModeAfter(m: Mode, key: char): (r: Mode)
    ensures r == Normal <==> m == Normal || key == Kesc
    ensures r != m ==> key == Kesc && !Navigates(m, key)
    ensures Navigates(m, key) ==> r == m
  {
    if Navigates(m, key) then m else Normal
  }

  /** The mode after a sequence of keys. */
  function ModeAfterAll(m: Mode, keys: seq<char>): Mode
    decreases |keys|
  {
    if keys == [] then m else ModeAfterAll(ModeAfter(m, keys[0]), keys[1..])
  }

  /**
   * Nothing sets the mode to NAVIGATING or ZOOMING, so from NORMAL, where
   * main starts, the mode stays NORMAL whatever keys arrive.
   */
  lemma {:induction false} NormalForever(keys: seq<char>)
    ensures ModeAfterAll(Normal, keys) == Normal
  {
    if keys != [] {
      NormalForever(keys[1..]);
    }
  }

  /** The treemap's area in draw_interface: the window without the status bar. */
  function DataRect(maprect: Rectangle): Rectangle
  {
    Rect(maprect.min.x, maprect.min.y, maprect.max.x, maprect.max.y - STATUSHEIGHT)
  }

  /** The child arrays of `node`'s subtree, or none for nil. */
  ghost function ArraysIn(node: FsNode?): set<array<FsNode?>>
    reads node
  {
    if node == null then {} else node.Arrays
  }

  /** A node of child j's post-order is in the post-orders from child i on, for i <= j. */
  lemma {:induction false} InKidsPostOrder(top: FsNode, i: nat, j: nat, m: FsNode)
    requires top.Valid() && i <= j < |top.kids| && m in top.kids[j].PostOrder()
    ensures m in top.KidsPostOrder(i)
    decreases j - i
  {
    if i < j {
      InKidsPostOrder(top, i + 1, j, m);
    }
  }

  /** The child from i on whose post-order holds a node of the post-orders from child i on. */
  lemma {:induction false} KidHolding(top: FsNode, i: nat, n: FsNode) returns (j: nat)
    requires top.Valid() && i <= |top.kids| && n in top.KidsPostOrder(i)
    ensures i <= j < |top.kids| && n in top.kids[j].PostOrder()
    decreases |top.kids| - i
  {
    if n in top.kids[i].PostOrder() {
      j := i;
    } else {
      j := KidHolding(top, i + 1, n);
    }
  }

  /** The post-order of a node in a tree lies inside the tree's post-order. */
  lemma {:induction false} SubtreeInTree(top: FsNode, n: FsNode)
    requires top.Valid() && n in top.PostOrder()
    ensures n.Valid()
    ensures forall m :: m in n.PostOrder() ==> m in top.PostOrder()
    decreases top.Nodes
  {
    if n != top {
      var j := KidHolding(top, 0, n);
      var kid := top.kids[j];
      assert top !in kid.Nodes;
      SubtreeInTree(kid, n);
      forall m | m in n.PostOrder()
        ensures m in top.PostOrder()
      {
        InKidsPostOrder(top, 0, j, m);
      }
    }
  }

  /**
   * Every node of a tree except its top has a parent, and that parent is a
   * node of the tree.
   */
  lemma {:induction false} ParentInTree(top: FsNode, n: FsNode)
    requires top.Valid() && n in top.PostOrder() && n != top
    ensures n.parent != null && n.parent in top.PostOrder()
    decreases top.Nodes
  {
    var j := KidHolding(top, 0, n);
    var kid := top.kids[j];
    if n != kid {
      assert top !in kid.Nodes;
      ParentInTree(kid, n);
      InKidsPostOrder(top, 0, j, kid);
      SubtreeInTree(top, kid);
    }
  }

  /** A hit in the subtree of a node of a tree is a node of the tree. */
  lemma HitInTree(top: FsNode, n: FsNode, p: Point)
    requires top.Valid() && n in top.PostOrder()
    ensures n.Valid() && (FirstHit(n.PostOrder(), p) != null ==> FirstHit(n.PostOrder(), p) in top.PostOrder())
  {
    SubtreeInTree(top, n);
    FirstHitMeans(n.PostOrder(), p);
  }

  class App {
    var mode: Mode
    var root: FsNode?
    var current: FsNode?

    /**
     * `root` and `current` are nil together; otherwise `root` is a valid,
     * parentless tree and `current` one of its nodes.
     */
    ghost predicate Valid()
      reads this, root, NodesOf(root), ArraysIn(root)
    {
      && (root == null <==> current == null)
      && (root != null ==> root.Valid() && root.parent == null && current in root.PostOrder())
    }

    /**
     * main's start-up: NORMAL mode, and a directory node named "root" for
     * the path, with no parent, scanned and made current.
     */
    constructor (fs: FileSystem, path: string)
      ensures Valid() && mode == Normal && root != null && current == root
      ensures root.Abs() == ScanSpec(fs, path, Fresh("root", path, 0, true))
      ensures fresh(root.Nodes)
    {
      mode := Normal;
      var r := new FsNode("root", path, 0, true, null);
      root := r;
      current := r;
      ScanDirectory(fs, path, r);
    }

    /**
     * What navigate does for a key: 'q' asks to quit; 'o' replaces the
     * tree with one made only of new nodes, a directory node named "root"
     * for "." with no parent, scanned and made current; 'u' moves to the parent when current and its parent
     * are non-nil; 'r' moves to the root when there is one; any other key
     * changes nothing.
     */
    twostate predicate Navigated(key: char, fs: FileSystem, quit: bool)
      reads this, root, NodesOf(root), ArraysIn(root)
    {
      if key == 'q' then
        quit && root == old(root) && current == old(current)
      else if key == 'o' then
        && !quit && root != null && fresh(root.Nodes) && current == root
        && root.Valid() && root.parent == null
        && root.Abs() == ScanSpec(fs, ".", Fresh("root", ".", 0, true))
      else
        && !quit && root == old(root)
        && current == (if key == 'u' && old(current) != null && old(current.parent) != null then old(current.parent)
                       else if key == 'r' && old(root) != null then old(root)
                       else old(current))
    }

    /** navigate(key); 'u' at the root stays at the root. */
    method Navigate(key: char, fs: FileSystem) returns (quit: bool)
      requires Valid()
      modifies this
      ensures Valid() && mode == old(mode)
      ensures Navigated(key, fs, quit)
      ensures key == 'u' && old(current) == old(root) ==> current == old(current)
      ensures key != 'o' ==> unchanged(NodesOf(old(root))) && unchanged(ArraysIn(old(root)))
    {
      quit := false;
      if key == 'q' {
        quit := true;
      } else if key == 'o' {
        Open(fs);
      } else if key == 'u' {
        if current != null && current.parent != null {
          ParentInTree(root, current);
          current := current.parent;
        }
      } else if key == 'r' {
        if root != null {
          current := root;
        }
      }
    }

    /**
     * navigate's 'o': the old tree is dropped and a fresh directory node
     * named "root" for "." is created, made root and current, and scanned.
     */
    method Open(fs: FileSystem)
      modifies this
      ensures Valid() && mode == old(mode)
      ensures Navigated('o', fs, false)
    {
      var r := new FsNode("root", ".", 0, true, null);
      root := r;
      current := r;
      ScanDirectory(fs, ".", r);
    }

    /** switchmode(newmode): sets the mode; the status text is not modelled. */
    method SwitchMode(newMode: Mode)
      modifies this`mode
      ensures mode == newMode
    {
      mode := newMode;
    }

    /**
     * handlekey(key): in NAVIGATING or ZOOMING mode Esc switches to NORMAL
     * and changes nothing else; every other key, and every key in NORMAL
     * mode, goes to navigate.
     */
    method HandleKey(key: char, fs: FileSystem) returns (quit: bool)
      requires Valid()
      modifies this
      ensures Valid() && mode == ModeAfter(old(mode), key)
      ensures Navigates(old(mode), key) ==> Navigated(key, fs, quit)
      ensures !Navigates(old(mode), key) ==> !quit && root == old(root) && current == old(current)
    {
      if mode == Normal {
        quit := Navigate(key, fs);
      } else if key == Kesc {
        SwitchMode(Normal);
        quit := false;
      } else {
        quit := Navigate(key, fs);
      }
    }

    /**
     * The left-click step of main's event loop. Without button 1 nothing
     * happens. Otherwise the hit-test runs from `current`; on a hit, the old
     * current's flag is cleared, the clicked node's is set (in that order,
     * so clicking `current` leaves it selected), no other flag changes, and
     * `current` moves to the clicked node exactly when it is a directory
     * with children.
     */
    method Click(xy: Point, buttons: bv32) returns (clicked: FsNode?)
      requires Valid()
      modifies this`current, NodesOf(root)`selected
      ensures Valid() && root == old(root)
      ensures buttons & 1 == 0 || old(current) == null ==> clicked == null
      ensures buttons & 1 != 0 && old(current) != null ==> clicked == old(FirstHit(current.PostOrder(), xy))
      ensures current == (if clicked != null && clicked.isdir && clicked.nchildren > 0 then clicked else old(current))
      ensures forall n :: n in NodesOf(root) ==>
                n.selected == (if clicked != null && n == clicked then true
                               else if clicked != null && n == old(current) then false
                               else old(n.selected))
    {
      if buttons & 1 == 0 {
        return null;
      }
      label Entry:
      clicked := FindNodeAtPoint(current, xy);
      assert current != null ==> clicked == old(FirstHit(current.PostOrder(), xy));
      if clicked != null {
        PostOrderUnchanged@Entry(root);
        HitInTree(root, current, xy);
        Select(clicked);
      }
    }

    /**
     * The state update of a hit: clear the old current's flag, set the
     * clicked node's (so clicking `current` leaves it selected), and make
     * the clicked node current when it is a directory with children.
     */
    method Select(clicked: FsNode)
      requires Valid() && root != null && clicked in root.PostOrder()
      modifies this`current, NodesOf(root)`selected
      ensures Valid() && root == old(root)
      ensures current == (if clicked.isdir && clicked.nchildren > 0 then clicked else old(current))
      ensures forall n :: n in NodesOf(root) ==>
                n.selected == (if n == clicked then true else if n == old(current) then false else old(n.selected))
    {
      label Entry:
      if current.selected {
        current.selected := false;
      }
      clicked.selected := true;
      if clicked.isdir && clicked.nchildren > 0 {
        current := clicked;
      }
      ShapeUnchanged@Entry(root);
    }

    /**
     * draw_interface's layout step: with a tree, lays it out in the
     * treemap's area inset by MARGIN; the flags and `current` are kept.
     */
    method Relayout(maprect: Rectangle)
      requires Valid()
      modifies NodesOf(root)`bounds
      ensures Valid()
      ensures root != null ==> root.Abs() == LayoutTree(old(root.Abs()), InsetRect(DataRect(maprect), MARGIN))
    {
      if root != null {
        LayoutNodes(root, InsetRect(DataRect(maprect), MARGIN));
      }
    }
  }
}
