/**
 * The node store: the FsNode record of dufus.h, create_fsnode and
 * add_child with its growable child array.
 *
 * An FsNode is a heap object whose fields are updated in place. Besides the
 * C fields it carries three ghost fields: `kids`, the sequence that
 * children[0 .. nchildren) holds, and the footprints `Nodes` (the nodes of
 * the subtree, this one included) and `Arrays` (their child arrays).
 * Valid() is the tree invariant; it reads only the structural fields, so
 * writing `bounds`, `selected` or `size` never disturbs it.
 */
module FsTree {
  import opened Geometry

  /** The colour handle chosen at creation: directories and files differ. */
  datatype Color = DirColor | FileColor

  /** The value of a subtree: every field a node shows, and its children. */
  datatype Tree = Tree(name: string, path: string, size: nat, isdir: bool,
                       bounds: Rectangle, selected: bool, kids: seq<Tree>)

  /** First capacity of a child array. */
  const InitialCapacity: nat := 16

  /** The capacity add_child grows a full child array to. */
  function NewCapacity(max: nat): nat
  {
    if max == 0 then InitialCapacity else max * 2
  }

  /** The capacity of a child array after n appends to a fresh node. */
  function CapacityAfter(n: nat): nat
  {
    if n == 0 then 0
    else
      var c := CapacityAfter(n - 1);
      if n - 1 >= c then NewCapacity(c) else c
  }

  /** Capacities a child array can have: 0, or 16 doubled some number of times. */
  predicate IsCapacity(m: nat)
    decreases m
  {
    m == 0 || m == InitialCapacity || (m > InitialCapacity && m % 2 == 0 && IsCapacity(m / 2))
  }

  /**
   * Growing by doubling: the capacity after n appends holds the n children,
   * is 0 only for no children, is 16 times a power of two, and beyond the
   * first block wastes less than half of the array.
   */
  lemma {:induction false} CapacityBounds(n: nat)
    ensures n <= CapacityAfter(n)
    ensures n == 0 <==> CapacityAfter(n) == 0
    ensures IsCapacity(CapacityAfter(n))
    ensures CapacityAfter(n) > InitialCapacity ==> CapacityAfter(n) < 2 * n
  {
    if n > 0 {
      CapacityBounds(n - 1);
      var c := CapacityAfter(n - 1);
      if n - 1 >= c && c > 0 {
        assert NewCapacity(c) / 2 == c;
      }
    }
  }

  /** The nodes of `node`'s subtree, or none for nil. */
  ghost function NodesOf(node: FsNode?): set<FsNode>
    reads node
  {
    if node == null then {} else node.Nodes
  }

  /** The node itself as a set, or none for nil. */
  function Only(node: FsNode?): set<FsNode>
  {
    if node == null then {} else {node}
  }

  class FsNode {
    var name: string
    var path: string
    var size: nat
    var isdir: bool
    var parent: FsNode?
    var children: array?<FsNode?>
    var nchildren: nat
    var maxchildren: nat
    var bounds: Rectangle
    var selected: bool
    var color: Color

    ghost var kids: seq<FsNode>
    ghost var Nodes: set<FsNode>
    ghost var Arrays: set<array<FsNode?>>

    /**
     * The child array of this node alone: nil exactly while the capacity is
     * 0, as long as the capacity otherwise, holding `kids` in its first
     * nchildren slots, with the capacity add_child's doubling reaches.
     */
    ghost predicate Shaped()
      reads this`kids, this`nchildren, this`maxchildren, this`children, children
    {
      && |kids| == nchildren
      && nchildren <= maxchildren
      && maxchildren == CapacityAfter(nchildren)
      && (children == null <==> maxchildren == 0)
      && (children != null ==> children.Length == maxchildren)
      && (children != null ==> forall i :: 0 <= i < nchildren ==> children[i] == kids[i])
    }

    /**
     * The tree invariant: every node is Shaped, each child's parent pointer
     * is the node, and the children's subtrees are disjoint and exclude the
     * node and its array, so the structure is a finite tree.
     */
    ghost predicate Valid()
      reads this`Nodes, this`Arrays, Nodes`kids, Nodes`children, Nodes`nchildren,
            Nodes`maxchildren, Nodes`Nodes, Nodes`Arrays, Nodes`parent, Arrays
      decreases Nodes
    {
      && this in Nodes
      && (children != null ==> children in Arrays)
      && Shaped()
      && (forall i :: 0 <= i < |kids| ==>
            && kids[i] in Nodes
            && kids[i].Nodes <= Nodes
            && kids[i].Arrays <= Arrays
            && this !in kids[i].Nodes
            && children !in kids[i].Arrays
            && kids[i].parent == this
            && kids[i].Valid())
      && (forall i, j :: 0 <= i < j < |kids| ==>
            kids[i].Nodes !! kids[j].Nodes && kids[i].Arrays !! kids[j].Arrays)
    }

    /** The value of this subtree. */
    ghost function Abs(): (t: Tree)
      requires Valid()
      reads this, Nodes, Arrays
      ensures |t.kids| == |kids|
      decreases Nodes, |kids| + 1
    {
      Tree(name, path, size, isdir, bounds, selected, KidTrees(|kids|))
    }

    /** The values of the first k children's subtrees. */
    ghost function KidTrees(k: nat): (ts: seq<Tree>)
      requires Valid() && k <= |kids|
      reads this`Nodes, this`Arrays, Nodes`kids, Nodes`children, Nodes`nchildren,
            Nodes`maxchildren, Nodes`Nodes, Nodes`Arrays, Nodes`parent, Arrays, Nodes - {this}
      ensures |ts| == k
      ensures forall i :: 0 <= i < k ==> ts[i] == kids[i].Abs()
      decreases Nodes, k
    {
      if k == 0 then [] else KidTrees(k - 1) + [kids[k - 1].Abs()]
    }

    /**
     * The subtree's nodes in post-order: the children's subtrees in array
     * order, then this node. Every node listed is a valid subtree of this one.
     */
    ghost function PostOrder(): (s: seq<FsNode>)
      requires Valid()
      reads this`Nodes, this`Arrays, Nodes`kids, Nodes`children, Nodes`nchildren,
            Nodes`maxchildren, Nodes`Nodes, Nodes`Arrays, Nodes`parent, Arrays
      ensures |s| > 0 && s[|s| - 1] == this
      ensures forall n :: n in s ==> n in Nodes && n.Nodes <= Nodes && n.Arrays <= Arrays && n.Valid()
      decreases Nodes, |kids| + 1
    {
      KidsPostOrder(0) + [this]
    }

    /** The post-orders of children i, i+1, ... concatenated. */
    ghost function KidsPostOrder(i: nat): (s: seq<FsNode>)
      requires Valid() && i <= |kids|
      reads this`Nodes, this`Arrays, Nodes`kids, Nodes`children, Nodes`nchildren,
            Nodes`maxchildren, Nodes`Nodes, Nodes`Arrays, Nodes`parent, Arrays
      ensures forall n :: n in s ==>
                n in Nodes && n != this && n.Nodes <= Nodes && n.Arrays <= Arrays && n.Valid()
      decreases Nodes, |kids| - i
    {
      if i == |kids| then [] else kids[i].PostOrder() + KidsPostOrder(i + 1)
    }

    /**
     * create_fsnode: a zero-filled node with the given name, path, size,
     * directory flag and parent, no child array and no children.
     */
    constructor (name: string, path: string, size: nat, isdir: bool, parent: FsNode?)
      ensures this.name == name && this.path == path && this.size == size
      ensures this.isdir == isdir && this.parent == parent
      ensures children == null && nchildren == 0 && maxchildren == 0
      ensures !selected && bounds == ZeroRect
      ensures color == (if isdir then DirColor else FileColor)
      ensures kids == [] && Nodes == {this} && Arrays == {}
      ensures Valid()
    {
      this.name := name;
      this.path := path;
      this.size := size;
      this.isdir := isdir;
      this.parent := parent;
      children := null;
      nchildren := 0;
      maxchildren := 0;
      selected := false;
      bounds := ZeroRect;
      color := if isdir then DirColor else FileColor;
      kids := [];
      Nodes := {this};
      Arrays := {};
    }
  }

  /** The child array of `node`, as a frame. */
  function ArrayOf(node: FsNode?): set<object>
    reads node
  {
    if node == null || node.children == null then {} else {node.children}
  }

  /**
   * add_child: a nil parent or child changes nothing; otherwise the child
   * is appended as Append describes.
   */
  method AddChild(parent: FsNode?, child: FsNode?)
    requires parent != null ==> parent.Shaped()
    modifies Only(parent)`children, Only(parent)`nchildren, Only(parent)`maxchildren,
             Only(parent)`kids, Only(parent)`Nodes, Only(parent)`Arrays, ArrayOf(parent)
    ensures parent != null ==> parent.Shaped()
    ensures parent == null || child == null ==> unchanged(Only(parent)) && unchanged(ArrayOf(parent))
    ensures parent != null && child != null ==>
              && parent.nchildren == old(parent.nchildren) + 1
              && parent.kids == old(parent.kids) + [child]
              && parent.children[old(parent.nchildren)] == child
              && (forall i :: 0 <= i < old(parent.nchildren) ==> parent.children[i] == old(parent.children[i]))
              && parent.maxchildren == (if old(parent.nchildren >= parent.maxchildren)
                                        then NewCapacity(old(parent.maxchildren))
                                        else old(parent.maxchildren))
              && (parent.children == old(parent.children) || fresh(parent.children))
              && parent.Nodes == old(parent.Nodes) + child.Nodes
              && parent.Arrays == old(parent.Arrays) + child.Arrays + {parent.children}
    ensures parent != null && child != null &&
            old(parent.Valid() && child.Valid() && child.parent == parent &&
                parent.Nodes !! child.Nodes && parent.Arrays !! child.Arrays) ==>
              parent.Valid()
  {
    if parent == null || child == null {
      return;
    }
    ghost var wasValid := parent.Valid() && child.Valid() && child.parent == parent &&
                          parent.Nodes !! child.Nodes && parent.Arrays !! child.Arrays;
    ghost var oldKids := parent.kids;
    Append(parent, child);
    if wasValid {
      assert forall i :: 0 <= i < |oldKids| ==> oldKids[i].Valid();
      KeepsValid(parent, oldKids, child);
    }
  }

  /**
   * The append step of add_child for a non-nil parent and child: a full
   * array is first grown, then the child is stored at index nchildren, which
   * grows by one; earlier slots keep their children.
   */
  method Append(parent: FsNode, child: FsNode)
    requires parent.Shaped()
    modifies parent`children, parent`nchildren, parent`maxchildren,
             parent`kids, parent`Nodes, parent`Arrays, parent.children
    ensures parent.Shaped()
    ensures parent.nchildren == old(parent.nchildren) + 1
    ensures parent.kids == old(parent.kids) + [child]
    ensures parent.children[old(parent.nchildren)] == child
    ensures forall i :: 0 <= i < old(parent.nchildren) ==> parent.children[i] == old(parent.children[i])
    ensures parent.maxchildren == (if old(parent.nchildren >= parent.maxchildren)
                                   then NewCapacity(old(parent.maxchildren))
                                   else old(parent.maxchildren))
    ensures parent.children == old(parent.children) || fresh(parent.children)
    ensures parent.Nodes == old(parent.Nodes) + child.Nodes
    ensures parent.Arrays == old(parent.Arrays) + child.Arrays + {parent.children}
  {
    if parent.nchildren >= parent.maxchildren {
      Grow(parent);
    }
    parent.children[parent.nchildren] := child;
    parent.nchildren := parent.nchildren + 1;
    parent.kids := parent.kids + [child];
    parent.Nodes := parent.Nodes + child.Nodes;
    parent.Arrays := parent.Arrays + child.Arrays + {parent.children};
  }

  /**
   * The realloc step of add_child: a full child array is replaced by a new
   * one of the next capacity whose first nchildren slots hold the children.
   */
  method Grow(parent: FsNode)
    requires parent.Shaped() && parent.nchildren >= parent.maxchildren
    modifies parent`children, parent`maxchildren
    ensures parent.maxchildren == NewCapacity(old(parent.maxchildren))
    ensures fresh(parent.children) && parent.children.Length == parent.maxchildren
    ensures forall i :: 0 <= i < parent.nchildren ==> parent.children[i] == parent.kids[i]
  {
    var newmax := NewCapacity(parent.maxchildren);
    var oldChildren := parent.children;
    var n := parent.nchildren;
    var newchildren := new FsNode?[newmax]
      (i reads oldChildren => if 0 <= i < n && oldChildren != null && i < oldChildren.Length
                              then oldChildren[i] else null);
    parent.children := newchildren;
    parent.maxchildren := newmax;
  }

  /**
   * Between two states, `n`'s footprints and child array changed only by
   * gaining objects that are new in the second.
   */
  twostate predicate Grew(n: FsNode)
    reads n
  {
    && old(n.Nodes) <= n.Nodes && fresh(n.Nodes - old(n.Nodes))
    && old(n.Arrays) <= n.Arrays && fresh(n.Arrays - old(n.Arrays))
    && (n.children == old(n.children) || fresh(n.children))
  }

  /** A valid subtree none of whose nodes or arrays changed keeps its invariant and value. */
  twostate lemma AbsUnchanged(n: FsNode)
    requires old(n.Valid())
    requires unchanged(old(n.Nodes)) && unchanged(old(n.Arrays))
    ensures n.Valid() && n.Abs() == old(n.Abs())
  {
  }

  /**
   * When nothing below `parent` changed except possibly parent itself and
   * its own array, and its old children are still its first children, those
   * children keep their invariant and their values.
   */
  twostate lemma KidsUnchanged(parent: FsNode)
    requires old(parent.Valid())
    requires |parent.kids| >= old(|parent.kids|)
    requires parent.kids[..old(|parent.kids|)] == old(parent.kids)
    requires unchanged(old(parent.Nodes) - {parent})
    requires unchanged(old(parent.Arrays) - old(ArrayOf(parent)))
    ensures forall i :: 0 <= i < old(|parent.kids|) ==>
              parent.kids[i].Valid() && parent.kids[i].Abs() == old(parent.kids[i].Abs())
  {
    forall i | 0 <= i < old(|parent.kids|)
      ensures parent.kids[i].Valid() && parent.kids[i].Abs() == old(parent.kids[i].Abs())
    {
      var k := parent.kids[i];
      assert k == old(parent.kids[i]);
      assert old(k.Nodes) <= old(parent.Nodes) - {parent};
      assert old(k.Arrays) <= old(parent.Arrays) - old(ArrayOf(parent));
      AbsUnchanged(k);
    }
  }

  /**
   * A node that gained one child, with nothing below it changed but its own
   * fields and array: its value is the old value with that child's value
   * appended.
   */
  twostate lemma AppendedAbs(parent: FsNode)
    requires old(parent.Valid()) && parent.Valid()
    requires |parent.kids| == old(|parent.kids|) + 1
    requires parent.kids[..old(|parent.kids|)] == old(parent.kids)
    requires unchanged(old(parent.Nodes) - {parent})
    requires unchanged(old(parent.Arrays) - old(ArrayOf(parent)))
    requires unchanged(parent`name, parent`path, parent`size, parent`isdir, parent`bounds, parent`selected)
    ensures parent.Abs() == old(parent.Abs()).(kids := old(parent.Abs()).kids + [parent.kids[|parent.kids| - 1].Abs()])
  {
    var n := old(|parent.kids|);
    KidsUnchanged(parent);
    var t0 := old(parent.Abs());
    var t1 := parent.Abs();
    assert t1.kids == t0.kids + [parent.kids[n].Abs()];
  }

  /**
   * When only the nodes of one child's subtree changed, and that child is
   * still a valid subtree with the same footprints and parent, its parent
   * stays valid and the other children keep their values.
   */
  twostate lemma SiblingsUnchanged(child: FsNode)
    requires old(child.parent) != null && old(child.parent.Valid()) && child in old(child.parent.kids)
    requires unchanged(old(child.parent.Nodes) - old(child.Nodes)) && unchanged(old(child.parent.Arrays))
    requires child.Valid() && unchanged(child`Nodes, child`Arrays, child`parent)
    ensures var p := old(child.parent);
            && p.Valid()
            && forall j :: 0 <= j < |p.kids| && p.kids[j] != child ==>
                 p.kids[j].Valid() && p.kids[j].Abs() == old(p.kids[j].Abs())
  {
    var p := old(child.parent);
    forall j | 0 <= j < |p.kids| && p.kids[j] != child
      ensures p.kids[j].Valid() && p.kids[j].Abs() == old(p.kids[j].Abs())
    {
      var k := p.kids[j];
      var i :| 0 <= i < |p.kids| && p.kids[i] == child;
      assert old(k.Nodes) <= old(p.Nodes) - old(child.Nodes);
      AbsUnchanged(k);
    }
  }

  /** Writing a node's own scalar fields changes only those fields of its value. */
  twostate lemma ScalarsWritten(n: FsNode)
    requires old(n.Valid())
    requires unchanged(old(n.Nodes) - {n}) && unchanged(old(n.Arrays))
    requires unchanged(n`kids, n`Nodes, n`Arrays, n`children, n`nchildren, n`maxchildren, n`parent)
    ensures n.Valid()
    ensures n.Abs() == old(n.Abs()).(name := n.name, path := n.path, size := n.size, isdir := n.isdir,
                                     bounds := n.bounds, selected := n.selected)
  {
    assert n.kids[..|n.kids|] == old(n.kids);
    KidsUnchanged(n);
    var t0 := old(n.Abs());
    var t1 := n.Abs();
    assert t1.kids == t0.kids;
  }

  /**
   * Writes that leave every structural field of a tree alone keep the tree
   * valid, with the same post-order.
   */
  twostate lemma ShapeUnchanged(n: FsNode)
    requires old(n.Valid()) && unchanged(old(n.Arrays))
    requires forall m :: m in old(n.Nodes) ==>
               unchanged(m`kids, m`Nodes, m`Arrays, m`children, m`nchildren, m`maxchildren, m`parent)
    ensures n.Valid() && n.PostOrder() == old(n.PostOrder())
  {
  }

  /** The step of Append that keeps the tree invariant. */
  lemma KeepsValid(parent: FsNode, oldKids: seq<FsNode>, child: FsNode)
    requires parent.Shaped() && parent.kids == oldKids + [child]
    requires parent in parent.Nodes && parent.children in parent.Arrays
    requires child.Valid() && child.parent == parent
    requires parent !in child.Nodes && parent.children !in child.Arrays
    requires child.Nodes <= parent.Nodes && child.Arrays <= parent.Arrays
    requires forall i :: 0 <= i < |oldKids| ==>
            && oldKids[i] in parent.Nodes
            && oldKids[i].Nodes <= parent.Nodes
            && oldKids[i].Arrays <= parent.Arrays
            && parent !in oldKids[i].Nodes
            && parent.children !in oldKids[i].Arrays
            && oldKids[i].parent == parent
            && oldKids[i].Valid()
    requires forall i :: 0 <= i < |oldKids| ==> oldKids[i].Nodes !! child.Nodes && oldKids[i].Arrays !! child.Arrays
    requires forall i, j :: 0 <= i < j < |oldKids| ==>
            oldKids[i].Nodes !! oldKids[j].Nodes && oldKids[i].Arrays !! oldKids[j].Arrays
    ensures parent.Valid()
  {
  }
}
