/**
 * find_node_at_point: the node under a point. The search tries the
 * children in array order, each with its whole subtree, before the node
 * itself, so the answer is the first node of the subtree's post-order whose
 * bounds contain the point. A node's own bounds do not limit the search of
 * its children.
 */
module HitTest {
  import opened Geometry
  import opened FsTree

  /** The first node of s whose bounds contain p, or nil. */
  ghost function FirstHit(s: seq<FsNode>, p: Point): FsNode?
    reads s
  {
    if s == [] then null
    else if PtInRect(p, s[0].bounds) then s[0]
    else FirstHit(s[1..], p)
  }

  /**
   * What FirstHit finds: a node exactly when some node of s contains p, and
   * then a node of s containing p with no node before it containing p.
   */
  lemma {:induction false} FirstHitMeans(s: seq<FsNode>, p: Point)
    ensures FirstHit(s, p) != null <==> exists k :: 0 <= k < |s| && PtInRect(p, s[k].bounds)
    ensures FirstHit(s, p) != null ==>
              exists k :: 0 <= k < |s| && s[k] == FirstHit(s, p) && PtInRect(p, s[k].bounds) &&
                forall m :: 0 <= m < k ==> !PtInRect(p, s[m].bounds)
  {
    if s != [] && !PtInRect(p, s[0].bounds) {
      FirstHitMeans(s[1..], p);
      if FirstHit(s, p) != null {
        var k :| 0 <= k < |s[1..]| && s[1..][k] == FirstHit(s, p) && PtInRect(p, s[1..][k].bounds) &&
                 forall m :: 0 <= m < k ==> !PtInRect(p, s[1..][m].bounds);
        assert s[k + 1] == FirstHit(s, p);
        assert forall m :: 0 <= m < k + 1 ==> !PtInRect(p, s[m].bounds) by {
          forall m | 0 <= m < k + 1
            ensures !PtInRect(p, s[m].bounds)
          {
            if m > 0 {
              assert s[m] == s[1..][m - 1];
            }
          }
        }
      } else {
        forall k | 0 <= k < |s|
          ensures !PtInRect(p, s[k].bounds)
        {
          if k > 0 {
            assert s[k] == s[1..][k - 1];
          }
        }
      }
    }
  }

  /** Searching a concatenation searches the first part, then the second. */
  lemma {:induction false} FirstHitAppend(a: seq<FsNode>, b: seq<FsNode>, p: Point)
    ensures FirstHit(a + b, p) == if FirstHit(a, p) != null then FirstHit(a, p) else FirstHit(b, p)
  {
    if a == [] {
      assert a + b == b;
    } else {
      assert (a + b)[1..] == a[1..] + b;
      FirstHitAppend(a[1..], b, p);
    }
  }

  /**
   * Searching the post-orders of children i, i+1, ... and then the node
   * itself gives what child i's subtree gives, or else the result of
   * searching from child i+1 on.
   */
  lemma SearchStep(node: FsNode, i: nat, p: Point)
    requires node.Valid() && i < |node.kids|
    ensures var found := FirstHit(node.kids[i].PostOrder(), p);
            FirstHit(node.KidsPostOrder(i) + [node], p) ==
              if found != null then found else FirstHit(node.KidsPostOrder(i + 1) + [node], p)
  {
    var child := node.kids[i];
    assert node.KidsPostOrder(i) + [node] == child.PostOrder() + (node.KidsPostOrder(i + 1) + [node]);
    FirstHitAppend(child.PostOrder(), node.KidsPostOrder(i + 1) + [node], p);
  }

  /**
   * find_node_at_point(node, p): nil for a nil node; otherwise the first
   * node of the subtree's post-order whose bounds contain p, or nil.
   */
  method FindNodeAtPoint(node: FsNode?, p: Point) returns (found: FsNode?)
    requires node != null ==> node.Valid()
    ensures node == null ==> found == null
    ensures node != null ==> found == FirstHit(node.PostOrder(), p)
    decreases NodesOf(node), 1
  {
    if node == null {
      return null;
    }
    var i := 0;
    while i < node.nchildren
      invariant 0 <= i <= node.nchildren
      invariant node.Valid()
      invariant FirstHit(node.PostOrder(), p) == FirstHit(node.KidsPostOrder(i) + [node], p)
    {
      found := SearchChild(node, i, p, FirstHit(node.KidsPostOrder(i) + [node], p), FirstHit(node.PostOrder(), p));
      if found != null {
        return found;
      }
      i := i + 1;
    }
    assert node.KidsPostOrder(i) == [];
    if PtInRect(p, node.bounds) {
      return node;
    }
    return null;
  }

  /**
   * One pass of find_node_at_point's loop, the search of child i. Given
   * what searching the post-order from child i on finds, and what searching
   * the whole post-order finds, before the search: the search keeps the
   * tree and the latter, and the former is what it found, or else what
   * searching from child i + 1 on finds.
   */
  method SearchChild(node: FsNode, i: nat, p: Point, ghost rest: FsNode?, ghost whole: FsNode?)
    returns (found: FsNode?)
    requires node.Valid() && i < |node.kids|
    requires rest == FirstHit(node.KidsPostOrder(i) + [node], p)
    requires whole == FirstHit(node.PostOrder(), p)
    ensures node.Valid() && whole == FirstHit(node.PostOrder(), p)
    ensures rest == if found != null then found else FirstHit(node.KidsPostOrder(i + 1) + [node], p)
    decreases node.Nodes, 0
  {
    label Before:
    found := FindNodeAtPoint(node.children[i], p);
    PostOrderUnchanged@Before(node);
    SearchStep(node, i, p);
  }

  /** A search changes nothing, so every post-order stays what it was. */
  twostate lemma PostOrderUnchanged(node: FsNode)
    requires old(node.Valid()) && unchanged(old(node.Nodes)) && unchanged(old(node.Arrays))
    ensures node.Valid() && node.PostOrder() == old(node.PostOrder())
    ensures forall k :: 0 <= k <= |node.kids| ==> node.KidsPostOrder(k) == old(node.KidsPostOrder(k))
  {
  }

  /**
   * No pruning: a point in some node below a node is found there, even when
   * it lies outside the node's own bounds, and the node itself is found only
   * when no node below it contains the point.
   */
  lemma NoPruning(node: FsNode, p: Point)
    requires node.Valid()
    ensures (exists n :: n in node.KidsPostOrder(0) && PtInRect(p, n.bounds)) ==>
              FirstHit(node.PostOrder(), p) != null && FirstHit(node.PostOrder(), p) != node
    ensures FirstHit(node.PostOrder(), p) == node ==>
              forall n :: n in node.KidsPostOrder(0) ==> !PtInRect(p, n.bounds)
  {
    var below := node.KidsPostOrder(0);
    FirstHitAppend(below, [node], p);
    FirstHitMeans(below, p);
    FirstHitMeans([node], p);
    if exists n :: n in below && PtInRect(p, n.bounds) {
      var n :| n in below && PtInRect(p, n.bounds);
      var k :| 0 <= k < |below| && below[k] == n;
      assert FirstHit(below, p) in below by {
        FirstHitMeans(below, p);
      }
    }
  }
}
