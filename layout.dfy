/**
 * layout_nodes: the slice-style treemap. A node with children takes the
 * rectangle it is given; its children are laid side by side along the
 * longer side of that rectangle, each over its full cross extent, with a
 * share of the length proportional to its size, at least MINBOX, and the
 * last child taking what is left. A child directory with children is laid
 * out again inside its own rectangle inset by 2.
 *
 * The specification is the function LayoutTree on tree values; the method
 * LayoutNodes performs it in place on FsNode objects, writing only bounds.
 */
module Layout {
  import opened Geometry
  import opened FsTree

  /** The smallest length a child's rectangle is given along the layout axis. */
  const MINBOX: int := 40

  /** C's conversion of a quotient to int: division truncating toward zero. */
  function TruncDiv(a: int, b: int): int
    requires b > 0
  {
    if a >= 0 then a / b else -((-a) / b)
  }

  /**
   * `(int)(ratio * w)` with ratio = size / total, or 0 when the total is 0.
   * The double arithmetic is taken as exact before the truncation.
   */
  function Share(size: nat, full: int, total: nat): int
  {
    if total > 0 then TruncDiv(size * full, total) else 0
  }

  /** The sum of the sizes of the first n trees. */
  function SizeTotal(kids: seq<Tree>, n: nat): nat
    requires n <= |kids|
  {
    if n == 0 then 0 else SizeTotal(kids, n - 1) + kids[n - 1].size
  }

  /** The layout direction: along x when the rectangle is at least as wide as high. */
  predicate Horizontal(avail: Rectangle)
  {
    Dx(avail) >= Dy(avail)
  }

  /** The low and high edge of a rectangle along the x axis, or else the y axis. */
  function AxisLo(r: Rectangle, horizontal: bool): int
  {
    if horizontal then r.min.x else r.min.y
  }

  function AxisHi(r: Rectangle, horizontal: bool): int
  {
    if horizontal then r.max.x else r.max.y
  }

  /** The low and high edge of a rectangle across that axis. */
  function CrossLo(r: Rectangle, horizontal: bool): int
  {
    if horizontal then r.min.y else r.min.x
  }

  function CrossHi(r: Rectangle, horizontal: bool): int
  {
    if horizontal then r.max.y else r.max.x
  }

  /**
   * Where child i starts along the axis when the line runs from lo to hi:
   * lo for the first child, then each child ends where the next begins.
   */
  function Cursor(kids: seq<Tree>, total: nat, lo: int, hi: int, i: nat): int
    requires i <= |kids|
    decreases i, 0
  {
    if i == 0 then lo else Cursor(kids, total, lo, hi, i - 1) + Extent(kids, total, lo, hi, i - 1)
  }

  /**
   * The length child j gets along the axis: what remains up to hi for the
   * last child, its proportional share for the others, raised to MINBOX.
   */
  function Extent(kids: seq<Tree>, total: nat, lo: int, hi: int, j: nat): int
    requires j < |kids|
    decreases j, 1
  {
    var raw := if j == |kids| - 1 then hi - Cursor(kids, total, lo, hi, j)
               else Share(kids[j].size, hi - lo, total);
    if raw < MINBOX then MINBOX else raw
  }

  /** The rectangle layout_nodes gives child j of a node laid out in avail. */
  function KidRect(kids: seq<Tree>, total: nat, avail: Rectangle, j: nat): Rectangle
    requires j < |kids|
  {
    var h := Horizontal(avail);
    var lo := Cursor(kids, total, AxisLo(avail, h), AxisHi(avail, h), j);
    var ext := Extent(kids, total, AxisLo(avail, h), AxisHi(avail, h), j);
    if h then Rect(lo, avail.min.y, lo + ext, avail.min.y + Dy(avail))
    else Rect(avail.min.x, lo, avail.min.x + Dx(avail), lo + ext)
  }

  /**
   * A child given rectangle r: a directory with children is laid out again
   * in r inset by 2; any other child just takes r.
   */
  function Placed(k: Tree, r: Rectangle): Tree
    decreases k, 2, 0
  {
    if k.isdir && |k.kids| > 0 then LayoutTree(k, InsetRect(r, 2)) else k.(bounds := r)
  }

  /** layout_nodes(node, avail) on the value of node's subtree. */
  function LayoutTree(t: Tree, avail: Rectangle): Tree
    decreases t, 1, 0
  {
    if |t.kids| == 0 then t else t.(bounds := avail, kids := LayoutKids(t, avail, |t.kids|))
  }

  /** The first n children of t after layout in avail. */
  function LayoutKids(t: Tree, avail: Rectangle, n: nat): (ks: seq<Tree>)
    requires n <= |t.kids|
    ensures |ks| == n
    decreases t, 0, n
  {
    if n == 0 then []
    else LayoutKids(t, avail, n - 1) +
         [Placed(t.kids[n - 1], KidRect(t.kids, SizeTotal(t.kids, |t.kids|), avail, n - 1))]
  }

  /** Child j after layout is child j placed in its rectangle. */
  lemma {:induction false} LayoutKidsAt(t: Tree, avail: Rectangle, n: nat, j: nat)
    requires j < n <= |t.kids|
    ensures LayoutKids(t, avail, n)[j] == Placed(t.kids[j], KidRect(t.kids, SizeTotal(t.kids, |t.kids|), avail, j))
    decreases n
  {
    if j < n - 1 {
      LayoutKidsAt(t, avail, n - 1, j);
    }
  }

  /** The children after layout depend only on the children before it. */
  lemma {:induction false} LayoutKidsOnlyKids(t: Tree, u: Tree, avail: Rectangle, n: nat)
    requires t.kids == u.kids && n <= |t.kids|
    ensures LayoutKids(t, avail, n) == LayoutKids(u, avail, n)
    decreases n
  {
    if n > 0 {
      LayoutKidsOnlyKids(t, u, avail, n - 1);
    }
  }

  /** Two trees that agree in everything but the bounds of their nodes. */
  predicate SameButBounds(a: Tree, b: Tree)
    decreases b
  {
    && a.name == b.name && a.path == b.path && a.size == b.size
    && a.isdir == b.isdir && a.selected == b.selected
    && |a.kids| == |b.kids|
    && forall i :: 0 <= i < |b.kids| ==> SameButBounds(a.kids[i], b.kids[i])
  }

  /**
   * Layout changes nothing but bounds: every node keeps its name, path,
   * size, flags and children, at any depth. A node without children is left
   * as it is; a node with children takes avail as its bounds.
   */
  lemma {:induction false} LayoutOnlyBounds(t: Tree, avail: Rectangle)
    ensures SameButBounds(LayoutTree(t, avail), t)
    ensures |t.kids| == 0 ==> LayoutTree(t, avail) == t
    ensures |t.kids| > 0 ==> LayoutTree(t, avail).bounds == avail
    decreases t, 1
  {
    if |t.kids| > 0 {
      var r := LayoutTree(t, avail);
      var total := SizeTotal(t.kids, |t.kids|);
      forall i | 0 <= i < |t.kids|
        ensures SameButBounds(r.kids[i], t.kids[i])
      {
        LayoutKidsAt(t, avail, |t.kids|, i);
        PlacedOnlyBounds(t.kids[i], KidRect(t.kids, total, avail, i));
      }
    } else {
      SameButBoundsRefl(t);
    }
  }

  /**
   * A placed child keeps everything but bounds, and its bounds are its
   * rectangle, inset by 2 when it is a directory with children.
   */
  lemma {:induction false} PlacedOnlyBounds(k: Tree, r: Rectangle)
    ensures SameButBounds(Placed(k, r), k)
    ensures Placed(k, r).bounds == if k.isdir && |k.kids| > 0 then InsetRect(r, 2) else r
    decreases k, 2
  {
    if k.isdir && |k.kids| > 0 {
      LayoutOnlyBounds(k, InsetRect(r, 2));
    } else {
      SameButBoundsRefl(k);
      assert Placed(k, r).kids == k.kids;
    }
  }

  lemma {:induction false} SameButBoundsRefl(t: Tree)
    ensures SameButBounds(t, t)
    decreases t
  {
    forall i | 0 <= i < |t.kids|
      ensures SameButBounds(t.kids[i], t.kids[i])
    {
      SameButBoundsRefl(t.kids[i]);
    }
  }

  /** Two runs of trees of the same length whose sizes agree tree by tree. */
  predicate SameSizes(a: seq<Tree>, b: seq<Tree>)
  {
    |a| == |b| && forall i :: 0 <= i < |a| ==> a[i].size == b[i].size
  }

  lemma {:induction false} SizeTotalSame(a: seq<Tree>, b: seq<Tree>, n: nat)
    requires SameSizes(a, b) && n <= |a|
    ensures SizeTotal(a, n) == SizeTotal(b, n)
    decreases n
  {
    if n > 0 {
      SizeTotalSame(a, b, n - 1);
    }
  }

  /** The positions and extents along the axis depend only on the sizes. */
  lemma {:induction false} CursorSame(a: seq<Tree>, b: seq<Tree>, total: nat, lo: int, hi: int, i: nat)
    requires SameSizes(a, b) && i <= |a|
    ensures Cursor(a, total, lo, hi, i) == Cursor(b, total, lo, hi, i)
    ensures i < |a| ==> Extent(a, total, lo, hi, i) == Extent(b, total, lo, hi, i)
    decreases i
  {
    if i > 0 {
      CursorSame(a, b, total, lo, hi, i - 1);
    }
  }

  /** So do the children's rectangles. */
  lemma KidRectSame(a: seq<Tree>, b: seq<Tree>, total: nat, avail: Rectangle, j: nat)
    requires SameSizes(a, b) && j < |a|
    ensures KidRect(a, total, avail, j) == KidRect(b, total, avail, j)
  {
    var h := Horizontal(avail);
    CursorSame(a, b, total, AxisLo(avail, h), AxisHi(avail, h), j);
  }

  /**
   * Laying a tree out a second time in the same rectangle changes nothing:
   * the layout depends only on sizes and the shape, which layout keeps.
   */
  lemma {:induction false} LayoutTwice(t: Tree, avail: Rectangle)
    ensures LayoutTree(LayoutTree(t, avail), avail) == LayoutTree(t, avail)
    decreases t, 1
  {
    if |t.kids| > 0 {
      var r := LayoutTree(t, avail);
      var n := |t.kids|;
      LayoutOnlyBounds(t, avail);
      assert SameSizes(r.kids, t.kids) by {
        forall i | 0 <= i < n
          ensures r.kids[i].size == t.kids[i].size
        {
          assert SameButBounds(r.kids[i], t.kids[i]);
        }
      }
      SizeTotalSame(r.kids, t.kids, n);
      var total := SizeTotal(t.kids, n);
      forall j | 0 <= j < n
        ensures LayoutKids(r, avail, n)[j] == r.kids[j]
      {
        LayoutKidsAt(r, avail, n, j);
        LayoutKidsAt(t, avail, n, j);
        KidRectSame(r.kids, t.kids, total, avail, j);
        PlacedTwice(t.kids[j], KidRect(t.kids, total, avail, j));
      }
      assert LayoutKids(r, avail, n) == r.kids;
    }
  }

  /** Placing a child twice in the same rectangle is placing it once. */
  lemma {:induction false} PlacedTwice(k: Tree, rect: Rectangle)
    ensures Placed(Placed(k, rect), rect) == Placed(k, rect)
    decreases k, 2
  {
    if k.isdir && |k.kids| > 0 {
      LayoutTwice(k, InsetRect(rect, 2));
    }
  }

  /**
   * The rectangle of one child: the first starts at the low edge of avail,
   * each ends where the next begins, every one spans avail across the axis
   * and is at least MINBOX long; a child other than the last gets the
   * larger of MINBOX and its share, and the last reaches the high edge of
   * avail unless less than MINBOX was left, in which case it gets MINBOX.
   */
  lemma KidRectShape(kids: seq<Tree>, total: nat, avail: Rectangle, j: nat)
    requires j < |kids|
    ensures var h := Horizontal(avail);
            var r := KidRect(kids, total, avail, j);
            && (j == 0 ==> AxisLo(r, h) == AxisLo(avail, h))
            && (j + 1 < |kids| ==> AxisLo(KidRect(kids, total, avail, j + 1), h) == AxisHi(r, h))
            && CrossLo(r, h) == CrossLo(avail, h) && CrossHi(r, h) == CrossHi(avail, h)
            && AxisHi(r, h) - AxisLo(r, h) >= MINBOX
            && (j + 1 < |kids| ==>
                  var s := Share(kids[j].size, AxisHi(avail, h) - AxisLo(avail, h), total);
                  AxisHi(r, h) - AxisLo(r, h) == if s < MINBOX then MINBOX else s)
            && (j + 1 == |kids| ==>
                  if AxisHi(avail, h) - AxisLo(r, h) >= MINBOX then AxisHi(r, h) == AxisHi(avail, h)
                  else AxisHi(r, h) - AxisLo(r, h) == MINBOX)
  {
  }

  /** Child rectangles follow one another along the axis in child order. */
  lemma {:induction false} KidsInOrder(kids: seq<Tree>, total: nat, avail: Rectangle, j: nat, k: nat)
    requires j < k < |kids|
    ensures var h := Horizontal(avail);
            AxisHi(KidRect(kids, total, avail, j), h) <= AxisLo(KidRect(kids, total, avail, k), h)
    decreases k
  {
    var h := Horizontal(avail);
    KidRectShape(kids, total, avail, k - 1);
    KidRectShape(kids, total, avail, k);
    if j < k - 1 {
      KidsInOrder(kids, total, avail, j, k - 1);
    }
  }

  /** No point lies in the rectangles of two different children. */
  lemma KidsDisjoint(kids: seq<Tree>, total: nat, avail: Rectangle, j: nat, k: nat, p: Point)
    requires j < |kids| && k < |kids| && j != k
    ensures !(PtInRect(p, KidRect(kids, total, avail, j)) && PtInRect(p, KidRect(kids, total, avail, k)))
  {
    if j < k {
      KidsInOrder(kids, total, avail, j, k);
    } else {
      KidsInOrder(kids, total, avail, k, j);
    }
  }

  /**
   * The proportional share of a child whose size is at most the total, in
   * a non-negative length: between 0 and the length, the largest whole
   * number not above size * full / total.
   */
  lemma ShareBounds(size: nat, full: int, total: nat)
    requires total > 0 && size <= total && full >= 0
    ensures var s := Share(size, full, total);
            && 0 <= s <= full
            && s * total <= size * full < (s + 1) * total
  {
    var a := size * full;
    MulMono(0, size, full);
    var s := a / total;
    assert Share(size, full, total) == s;
    assert a == s * total + a % total;
    assert (s + 1) * total == s * total + total;
    MulMono(size, total, full);
    assert a <= full * total;
    if s > full {
      assert (full + 1) * total == full * total + total;
      MulMono(full + 1, s, total);
      assert false;
    }
  }

  lemma MulMono(a: int, b: int, c: nat)
    requires a <= b
    ensures a * c <= b * c
  {

  }

  /**
   * The minimum length can push children past the rectangle: two children
   * of a 50-wide, 10-high area each get 40, so the second ends at 80.
   */
  lemma MinboxOverflows()
    ensures var t := Tree("d", "./d", 2, true, ZeroRect, false,
                          [Tree("a", "./d/a", 1, false, ZeroRect, false, []),
                           Tree("b", "./d/b", 1, false, ZeroRect, false, [])]);
            var avail := Rect(0, 0, 50, 10);
            && LayoutTree(t, avail).kids[0].bounds == Rect(0, 0, 40, 10)
            && LayoutTree(t, avail).kids[1].bounds == Rect(40, 0, 80, 10)
  {
    var a := Tree("a", "./d/a", 1, false, ZeroRect, false, []);
    var b := Tree("b", "./d/b", 1, false, ZeroRect, false, []);
    var t := Tree("d", "./d", 2, true, ZeroRect, false, [a, b]);
    var avail := Rect(0, 0, 50, 10);
    assert SizeTotal(t.kids, 1) == 1;
    assert SizeTotal(t.kids, 2) == 2;
    assert Share(1, 50, 2) == 25;
    assert Cursor(t.kids, 2, 0, 50, 1) == 40;
    LayoutKidsAt(t, avail, 2, 0);
    LayoutKidsAt(t, avail, 2, 1);
  }

  /**
   * layout_nodes(node, avail): nothing for nil or a node without children;
   * otherwise the node takes avail as its bounds and its children are
   * placed by PlaceChildren. Only bounds are written, in node's subtree.
   */
  method LayoutNodes(node: FsNode?, avail: Rectangle)
    requires node != null ==> node.Valid()
    modifies NodesOf(node)`bounds
    ensures node != null ==> node.Valid() && node.Abs() == LayoutTree(old(node.Abs()), avail)
    decreases NodesOf(node), 4
  {
    if node == null || node.nchildren == 0 {
      return;
    }
    ghost var t := node.Abs();
    label Entry:
    node.bounds := avail;
    ScalarsWritten@Entry(node);
    LayoutChildren(node, avail, t);
  }

  /**
   * The rest of layout_nodes, once the node has taken avail: the total size
   * of the children, then the children placed one after the other.
   */
  method LayoutChildren(node: FsNode, avail: Rectangle, ghost t: Tree)
    requires node.Valid() && node.nchildren > 0
    requires node.Abs() == t.(bounds := avail)
    modifies (node.Nodes - {node})`bounds
    ensures node.Valid() && node.Abs() == LayoutTree(t, avail)
    decreases node.Nodes, 3
  {
    var total := SumSizes(node);
    PlaceChildren(node, avail, total, t);
    Assembled(node, avail, total, t);
  }

  /** The first loop of layout_nodes: the total size of the children. */
  method SumSizes(node: FsNode) returns (total: nat)
    requires node.Valid()
    ensures total == SizeTotal(node.Abs().kids, |node.kids|)
  {
    ghost var t := node.Abs();
    total := 0;
    var i := 0;
    while i < node.nchildren
      invariant 0 <= i <= node.nchildren
      invariant total == SizeTotal(t.kids, i)
    {
      total := total + node.children[i].size;
      i := i + 1;
    }
  }

  /**
   * The second loop of layout_nodes: along the longer side of avail, each
   * child in turn gets its extent from the running position, and is placed
   * by LayoutChild. t is the node's value before layout, total the sum of
   * its children's sizes.
   */
  method PlaceChildren(node: FsNode, avail: Rectangle, total: nat, ghost t: Tree)
    requires PlacedUpTo(node, avail, total, t, 0)
    modifies (node.Nodes - {node})`bounds
    ensures PlacedUpTo(node, avail, total, t, |t.kids|)
    decreases node.Nodes, 2
  {
    var horizontal := Dx(avail) >= Dy(avail);
    var x := avail.min.x;
    var y := avail.min.y;
    var w := Dx(avail);
    var h := Dy(avail);
    ghost var lo := AxisLo(avail, horizontal);
    ghost var hi := AxisHi(avail, horizontal);
    var i := 0;
    while i < node.nchildren
      invariant 0 <= i <= node.nchildren
      invariant (if horizontal then x else y) == Cursor(t.kids, total, lo, hi, i)
      invariant horizontal ==> y == avail.min.y
      invariant !horizontal ==> x == avail.min.x
      invariant PlacedUpTo(node, avail, total, t, i)
    {
      x, y := PlacePass(node, avail, total, t, i, horizontal, x, y, w, h);
      i := i + 1;
    }
  }

  /**
   * One pass of the second loop of layout_nodes: child i gets its
   * rectangle from the running position, is placed in it, and the position
   * moves on to the next child.
   */
  method PlacePass(node: FsNode, avail: Rectangle, total: nat, ghost t: Tree, i: nat,
                   horizontal: bool, x: int, y: int, w: int, h: int) returns (x': int, y': int)
    requires i < |t.kids| && PlacedUpTo(node, avail, total, t, i)
    requires horizontal == Horizontal(avail) && w == Dx(avail) && h == Dy(avail)
    requires (if horizontal then x else y) == Cursor(t.kids, total, AxisLo(avail, horizontal), AxisHi(avail, horizontal), i)
    requires horizontal ==> y == avail.min.y
    requires !horizontal ==> x == avail.min.x
    modifies (node.Nodes - {node})`bounds
    ensures PlacedUpTo(node, avail, total, t, i + 1)
    ensures (if horizontal then x' else y') == Cursor(t.kids, total, AxisLo(avail, horizontal), AxisHi(avail, horizontal), i + 1)
    ensures horizontal ==> y' == avail.min.y
    ensures !horizontal ==> x' == avail.min.x
    decreases node.Nodes, 1
  {
    var child := node.children[i];
    assert child.size == t.kids[i].size by {
      assert node.kids[i].Abs() == t.kids[i] && node.children[i] == node.kids[i];
    }
    var r;
    r, x', y' := ChildRect(avail, total, horizontal, x, y, w, h, i == node.nchildren - 1, child.size, t.kids, i);
    PlaceStep(node, avail, total, t, i, r);
  }

  /**
   * The state of the second loop of layout_nodes before child i: the
   * children before i are placed in their rectangles, the others unchanged.
   */
  ghost predicate PlacedUpTo(node: FsNode, avail: Rectangle, total: nat, t: Tree, i: nat)
    reads node, node.Nodes, node.Arrays
  {
    && node.Valid() && i <= |node.kids| == |t.kids|
    && (forall j :: 0 <= j < i ==>
          node.kids[j].Abs() == Placed(t.kids[j], KidRect(t.kids, total, avail, j)))
    && (forall j :: i <= j < |node.kids| ==> node.kids[j].Abs() == t.kids[j])
  }

  /** After the second loop, the node's value is its laid-out value. */
  lemma Assembled(node: FsNode, avail: Rectangle, total: nat, t: Tree)
    requires PlacedUpTo(node, avail, total, t, |t.kids|) && |t.kids| > 0
    requires total == SizeTotal(t.kids, |t.kids|)
    requires node.name == t.name && node.path == t.path && node.size == t.size
    requires node.isdir == t.isdir && node.selected == t.selected && node.bounds == avail
    ensures node.Abs() == LayoutTree(t, avail)
  {
    var ks := node.KidTrees(|node.kids|);
    forall j | 0 <= j < |ks|
      ensures ks[j] == LayoutKids(t, avail, |t.kids|)[j]
    {
      LayoutKidsAt(t, avail, |t.kids|, j);
    }
    assert ks == LayoutKids(t, avail, |t.kids|);
  }

  /**
   * The arithmetic of one pass of the second loop of layout_nodes: from the
   * running position, the extent of child i (what is left for the last
   * child, the share of its size otherwise, at least MINBOX), its rectangle
   * and the position after it.
   */
  method ChildRect(avail: Rectangle, total: nat, horizontal: bool, x: int, y: int, w: int, h: int,
                   last: bool, size: nat, ghost kids: seq<Tree>, ghost i: nat)
    returns (r: Rectangle, x': int, y': int)
    requires i < |kids| && kids[i].size == size && last == (i == |kids| - 1)
    requires horizontal == Horizontal(avail) && w == Dx(avail) && h == Dy(avail)
    requires (if horizontal then x else y) == Cursor(kids, total, AxisLo(avail, horizontal), AxisHi(avail, horizontal), i)
    requires horizontal ==> y == avail.min.y
    requires !horizontal ==> x == avail.min.x
    ensures r == KidRect(kids, total, avail, i)
    ensures (if horizontal then x' else y') == Cursor(kids, total, AxisLo(avail, horizontal), AxisHi(avail, horizontal), i + 1)
    ensures horizontal ==> y' == avail.min.y
    ensures !horizontal ==> x' == avail.min.x
  {
    x', y' := x, y;
    if horizontal {
      var width := if last then avail.max.x - x else Share(size, w, total);
      if width < MINBOX {
        width := MINBOX;
      }
      r := Rect(x, y, x + width, y + h);
      x' := x + width;
    } else {
      var height := if last then avail.max.y - y else Share(size, h, total);
      if height < MINBOX {
        height := MINBOX;
      }
      r := Rect(x, y, x + w, y + height);
      y' := y + height;
    }
  }

  /**
   * Child i of the second loop placed in r, its rectangle: the children
   * before it are already placed, those after it not yet.
   */
  method PlaceStep(node: FsNode, avail: Rectangle, total: nat, ghost t: Tree, i: nat, r: Rectangle)
    requires i < |t.kids| && PlacedUpTo(node, avail, total, t, i)
    requires r == KidRect(t.kids, total, avail, i)
    modifies (node.Nodes - {node})`bounds
    ensures PlacedUpTo(node, avail, total, t, i + 1)
    decreases node.Nodes, 0
  {
    var child := node.children[i];
    ghost var olds := node.KidTrees(|node.kids|);
    assert olds[i] == t.kids[i];
    label Before:
    LayoutChild(child, r);
    SiblingsUnchanged@Before(child);
    PlacedNext(node, avail, total, t, i, olds);
  }

  /**
   * The children's values after one more child is placed: those other than
   * child i kept their values olds, and child i is placed in its rectangle.
   */
  lemma PlacedNext(node: FsNode, avail: Rectangle, total: nat, t: Tree, i: nat, olds: seq<Tree>)
    requires node.Valid() && i < |node.kids| == |t.kids| == |olds|
    requires forall j :: 0 <= j < i ==> olds[j] == Placed(t.kids[j], KidRect(t.kids, total, avail, j))
    requires forall j :: i < j < |olds| ==> olds[j] == t.kids[j]
    requires forall j :: 0 <= j < |olds| && j != i ==> node.kids[j].Abs() == olds[j]
    requires node.kids[i].Abs() == Placed(t.kids[i], KidRect(t.kids, total, avail, i))
    ensures PlacedUpTo(node, avail, total, t, i + 1)
  {
  }

  /**
   * One child of layout_nodes' second loop: child->bounds = r, then a
   * directory with children is laid out inside r inset by 2.
   */
  method LayoutChild(child: FsNode, r: Rectangle)
    requires child.Valid()
    modifies child.Nodes`bounds
    ensures child.Valid() && child.Abs() == Placed(old(child.Abs()), r)
    decreases child.Nodes, 5
  {
    ghost var t := child.Abs();
    label Start:
    child.bounds := r;
    ScalarsWritten@Start(child);
    if child.isdir && child.nchildren > 0 {
      ghost var u := child.Abs();
      LayoutNodes(child, InsetRect(r, 2));
      LayoutKidsOnlyKids(u, t, InsetRect(r, 2), |t.kids|);
    }
  }
}
