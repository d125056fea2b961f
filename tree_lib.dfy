/**
 * The namespace tree of tree_lib.py: nodes with an id, an ordered list of
 * children, a parent pointer and a status.
 *
 * Python puts no bound on the structure; the searches below only end when
 * what they walk is acyclic. The model asks for that as a ghost rank: a
 * map from the nodes reached to naturals that strictly decrease from a
 * node to its children (for the search) or from a node to its parent (for
 * the height).
 */
module TreeLib {
  import opened Bytes

  datatype Status = Active | Close

  class Node {
    const id: int
    var childs: seq<Node>
    var parent: Node?
    var status: Status

    /** A fresh node: no children, no parent, active. */
    constructor (id: int)
      ensures this.id == id && childs == [] && parent == null && status == Active
    {
      this.id := id;
      childs := [];
      parent := null;
      status := Active;
    }

    /** add_child: the child goes last in the list and points back here; the child is returned. */
    method AddChild(child: Node) returns (r: Node)
      modifies this, child
      ensures r == child
      ensures childs == old(childs) + [child] && child.parent == this
      ensures status == old(status) && child.status == old(child.status)
      ensures child != this ==> parent == old(parent) && child.childs == old(child.childs)
    {
      childs := childs + [child];
      child.parent := this;
      r := child;
    }

    /**
     * add_child_between: with no parent nothing happens; otherwise the
     * child is added under parent. This node plays no part, and nothing is
     * returned (Python's bare return).
     */
    method AddChildBetween(parent: Node?, child: Node)
      modifies parent, child
      ensures parent == null ==> child.parent == old(child.parent) && child.childs == old(child.childs)
      ensures parent != null ==> parent.childs == old(parent.childs) + [child] && child.parent == parent
      ensures child.status == old(child.status)
      ensures parent != null ==> parent.status == old(parent.status)
      ensures parent != null && child != parent ==> parent.parent == old(parent.parent) && child.childs == old(child.childs)
    {
      if parent == null {
        return;
      }
      var _ := parent.AddChild(child);
    }

    /**
     * find_in_childs: this node when its id matches, otherwise the first
     * match of a depth-first search over the children in order; null when
     * no node of the subtree has the id.
     */
    method FindInChilds(value: int, ghost rank: map<Node, nat>) returns (r: Node?)
      requires Ranked(this, rank)
      ensures r == FirstWithId(Preorder(this, rank), value)
      decreases rank[this]
    {
      if id == value {
        return this;
      }
      var found: Node? := null;
      var k := 0;
      while k < |childs|
        invariant 0 <= k <= |childs|
        invariant FirstWithId(PreorderList(childs[..k], rank, rank[this]), value) == null
        invariant found == null
      {
        var child := childs[k];
        PreorderListSnoc(childs, k, rank, rank[this]);
        FirstWithIdAppend(PreorderList(childs[..k], rank, rank[this]), Preorder(child, rank), value);
        if child.id == value {
          FoundAmongChildren(this, k, rank, value);
          return child;
        }
        found := child.FindInChilds(value, rank);
        if found != null {
          FoundAmongChildren(this, k, rank, value);
          return found;
        }
        k := k + 1;
      }
      assert childs[..|childs|] == childs;
      return found;
    }

    /**
     * node_heigh: the number of nodes from the given one up its parent
     * chain, itself included; 0 for no node. This node plays no part.
     */
    method NodeHeigh(node: Node?, ghost depth: map<Node, nat>) returns (heigh: nat)
      requires node != null ==> ParentRanked(node, depth)
      ensures node == null ==> heigh == 0
      ensures node != null ==> heigh == |Ancestry(node, depth)|
    {
      heigh := 0;
      var start := node;
      while start != null
        invariant start != null ==> ParentRanked(start, depth)
        invariant node != null ==> heigh + (if start == null then 0 else |Ancestry(start, depth)|) == |Ancestry(node, depth)|
        invariant node == null ==> start == null && heigh == 0
        decreases if start == null then 0 else depth[start] + 1
      {
        heigh := heigh + 1;
        start := start.parent;
      }
    }

    /**
     * close_ns: the node find_in_childs gives is marked closed and no other
     * node changes; when there is none, -1 and no change (Python's None
     * otherwise).
     */
    method CloseNs(value: int, ghost rank: map<Node, nat>) returns (r: Option<int>)
      requires Ranked(this, rank)
      modifies rank.Keys`status
      ensures var target := old(FirstWithId(Preorder(this, rank), value));
              (target == null ==> r == Some(-1)) &&
              (target != null ==> r == None && target.status == Close)
      ensures forall m :: m in rank.Keys && m != old(FirstWithId(Preorder(this, rank), value)) ==>
                m.status == old(m.status)
    {
      var nodeToClose := FindInChilds(value, rank);
      if nodeToClose == null {
        return Some(-1);
      }
      PreorderRanked(this, rank);
      FirstWithIdIn(Preorder(this, rank), value);
      nodeToClose.status := Close;
      r := None;
    }
  }

  // ---------------------------------------------------------------------
  // The subtree below a node

  /** The children of every node reached rank lower than their parent. */
  ghost predicate Ranked(n: Node, rank: map<Node, nat>)
    reads rank.Keys
    decreases if n in rank then rank[n] else 0
  {
    n in rank &&
    forall i :: 0 <= i < |n.childs| ==>
      n.childs[i] in rank && rank[n.childs[i]] < rank[n] && Ranked(n.childs[i], rank)
  }

  /** The subtree in depth-first order: the node, then the subtrees of its children in order. */
  ghost function Preorder(n: Node, rank: map<Node, nat>): (s: seq<Node>)
    requires Ranked(n, rank)
    reads rank.Keys
    ensures |s| >= 1 && s[0] == n
    decreases rank[n], 1, 0
  {
    [n] + PreorderList(n.childs, rank, rank[n])
  }

  /** The subtrees of a list of siblings, one after the other. */
  ghost function PreorderList(cs: seq<Node>, rank: map<Node, nat>, bound: nat): seq<Node>
    requires forall i :: 0 <= i < |cs| ==> cs[i] in rank && rank[cs[i]] < bound && Ranked(cs[i], rank)
    reads rank.Keys
    decreases bound, 0, |cs|
  {
    if cs == [] then []
    else PreorderList(cs[..|cs| - 1], rank, bound) + Preorder(cs[|cs| - 1], rank)
  }

  lemma PreorderListSnoc(cs: seq<Node>, k: nat, rank: map<Node, nat>, bound: nat)
    requires k < |cs|
    requires forall i :: 0 <= i < |cs| ==> cs[i] in rank && rank[cs[i]] < bound && Ranked(cs[i], rank)
    ensures PreorderList(cs[..k + 1], rank, bound) == PreorderList(cs[..k], rank, bound) + Preorder(cs[k], rank)
  {
    assert cs[..k + 1][..k] == cs[..k];
  }

  lemma {:induction false} PreorderListPrefix(cs: seq<Node>, k: nat, rank: map<Node, nat>, bound: nat)
    requires k <= |cs|
    requires forall i :: 0 <= i < |cs| ==> cs[i] in rank && rank[cs[i]] < bound && Ranked(cs[i], rank)
    ensures PreorderList(cs[..k], rank, bound) <= PreorderList(cs, rank, bound)
    decreases |cs| - k
  {
    if k == |cs| {
      assert cs[..k] == cs;
    } else {
      var init := cs[..|cs| - 1];
      PreorderListPrefix(init, k, rank, bound);
      assert init[..k] == cs[..k];
    }
  }

  /** Once the search finds the id among the first k + 1 children, that is the subtree's first match. */
  lemma FoundAmongChildren(n: Node, k: nat, rank: map<Node, nat>, value: int)
    requires Ranked(n, rank) && n.id != value && k < |n.childs|
    requires FirstWithId(PreorderList(n.childs[..k + 1], rank, rank[n]), value) != null
    ensures FirstWithId(Preorder(n, rank), value) == FirstWithId(PreorderList(n.childs[..k + 1], rank, rank[n]), value)
  {
    var a := PreorderList(n.childs[..k + 1], rank, rank[n]);
    var s := PreorderList(n.childs, rank, rank[n]);
    PreorderListPrefix(n.childs, k + 1, rank, rank[n]);
    assert s == a + s[|a|..];
    FirstWithIdAppend(a, s[|a|..], value);
    assert Preorder(n, rank)[1..] == s;
  }

  /** Every node of the subtree is ranked, so the search may go on from it. */
  lemma {:induction false} PreorderRanked(n: Node, rank: map<Node, nat>)
    requires Ranked(n, rank)
    ensures forall m :: m in Preorder(n, rank) ==> m in rank && Ranked(m, rank)
    decreases rank[n], 1, 0
  {
    PreorderListRanked(n.childs, rank, rank[n]);
  }

  lemma {:induction false} PreorderListRanked(cs: seq<Node>, rank: map<Node, nat>, bound: nat)
    requires forall i :: 0 <= i < |cs| ==> cs[i] in rank && rank[cs[i]] < bound && Ranked(cs[i], rank)
    ensures forall m :: m in PreorderList(cs, rank, bound) ==> m in rank && Ranked(m, rank)
    decreases bound, 0, |cs|
  {
    if cs != [] {
      PreorderListRanked(cs[..|cs| - 1], rank, bound);
      PreorderRanked(cs[|cs| - 1], rank);
    }
  }

  /** The first node of a sequence carrying the id, or null. */
  function FirstWithId(s: seq<Node>, value: int): (r: Node?)
  {
    if s == [] then null
    else if s[0].id == value then s[0]
    else FirstWithId(s[1..], value)
  }

  lemma {:induction false} FirstWithIdAppend(a: seq<Node>, b: seq<Node>, value: int)
    ensures FirstWithId(a + b, value) == if FirstWithId(a, value) != null then FirstWithId(a, value) else FirstWithId(b, value)
  {
    if a == [] {
      assert a + b == b;
    } else {
      assert (a + b)[1..] == a[1..] + b;
      FirstWithIdAppend(a[1..], b, value);
    }
  }

  /**
   * What the search finds: a node of the sequence with the id, with no
   * earlier node carrying it; null exactly when no node carries it.
   */
  lemma {:induction false} FirstWithIdIn(s: seq<Node>, value: int)
    ensures FirstWithId(s, value) != null ==>
              exists k :: 0 <= k < |s| && s[k] == FirstWithId(s, value) && s[k].id == value &&
                          forall j :: 0 <= j < k ==> s[j].id != value
    ensures FirstWithId(s, value) == null <==> forall k :: 0 <= k < |s| ==> s[k].id != value
  {
    if s != [] && s[0].id != value {
      FirstWithIdIn(s[1..], value);
      var r := FirstWithId(s, value);
      if r != null {
        var k :| 0 <= k < |s[1..]| && s[1..][k] == r && s[1..][k].id == value &&
                 forall j :: 0 <= j < k ==> s[1..][j].id != value;
        assert s[k + 1] == r;
        forall j | 0 <= j < k + 1 ensures s[j].id != value {
          if j > 0 {
            assert s[j] == s[1..][j - 1];
          }
        }
      } else {
        forall k | 0 <= k < |s| ensures s[k].id != value {
          if k > 0 {
            assert s[k] == s[1..][k - 1];
          }
        }
      }
    }
  }

  // ---------------------------------------------------------------------
  // The parent chain

  /** Every node up the parent chain has a parent of lower rank. */
  ghost predicate ParentRanked(n: Node, depth: map<Node, nat>)
    reads depth.Keys
    decreases if n in depth then depth[n] else 0
  {
    n in depth &&
    (n.parent != null ==> n.parent in depth && depth[n.parent] < depth[n] && ParentRanked(n.parent, depth))
  }

  /** The node and its ancestors, nearest first. */
  ghost function Ancestry(n: Node, depth: map<Node, nat>): (s: seq<Node>)
    requires ParentRanked(n, depth)
    reads depth.Keys
    ensures |s| >= 1 && s[0] == n
    decreases depth[n]
  {
    if n.parent == null then [n] else [n] + Ancestry(n.parent, depth)
  }

  /**
   * The chain steps from each node to its parent, ends at a root, and
   * never comes back to a node: the height counts distinct nodes.
   */
  lemma {:induction false} AncestryShape(n: Node, depth: map<Node, nat>)
    requires ParentRanked(n, depth)
    ensures var s := Ancestry(n, depth);
            s[|s| - 1].parent == null &&
            (forall k :: 0 <= k < |s| - 1 ==> s[k].parent == s[k + 1]) &&
            (forall k :: 0 <= k < |s| ==> s[k] in depth && depth[s[k]] <= depth[n]) &&
            (forall j, k :: 0 <= j < k < |s| ==> s[j] != s[k])
    decreases depth[n]
  {
    if n.parent != null {
      AncestryShape(n.parent, depth);
      var s, t := Ancestry(n, depth), Ancestry(n.parent, depth);
      assert s == [n] + t;
      forall j, k | 0 <= j < k < |s| ensures s[j] != s[k] {
        if j == 0 {
          assert s[k] == t[k - 1] && depth[t[k - 1]] <= depth[n.parent] < depth[n];
        } else {
          assert s[j] == t[j - 1] && s[k] == t[k - 1];
        }
      }
    }
  }
}
