/**
 * The heap structures of bst.c and its public operations.
 *
 * `BstNode` is bstnode_t and `Bst` is the container bst_t. Each object keeps
 * two ghost fields: `Repr`/`Nodes`, the nodes it owns, and `Model`, the
 * abstract `Trees.Tree` its links spell out. The C functions become
 * module-level methods over nullable references, so that a NULL container
 * or a NULL link is an input like any other.
 */
module SearchTree {
  import opened Trees

  class BstNode {
    var data: int
    var leftChild: BstNode?
    var rightChild: BstNode?

    ghost var Repr: set<BstNode>
    ghost var Model: Tree

    /** The subtree rooted here is a finite tree of distinct nodes that `Model` describes. */
    ghost predicate Valid()
      reads this, Repr
      decreases Repr
    {
      && this in Repr
      && (leftChild != null ==>
            && leftChild in Repr && leftChild.Repr <= Repr && this !in leftChild.Repr
            && leftChild.Valid())
      && (rightChild != null ==>
            && rightChild in Repr && rightChild.Repr <= Repr && this !in rightChild.Repr
            && rightChild.Valid())
      && (leftChild != null && rightChild != null ==> leftChild.Repr !! rightChild.Repr)
      && Model.Node? && Model.key == data
      && (leftChild == null ==> Model.left == Leaf)
      && (leftChild != null ==> Model.left == leftChild.Model)
      && (rightChild == null ==> Model.right == Leaf)
      && (rightChild != null ==> Model.right == rightChild.Model)
    }

    /** makeNode: a node holding `data` with two NULL child links. */
    constructor (data: int)
      ensures Valid() && fresh(this)
      ensures this.data == data && leftChild == null && rightChild == null
      ensures Repr == {this} && Model == Node(Leaf, data, Leaf)
    {
      this.data := data;
      leftChild := null;
      rightChild := null;
      Repr := {this};
      Model := Node(Leaf, data, Leaf);
    }
  }

  /** The nodes owned by a possibly-NULL link. */
  ghost function ReprOf(node: BstNode?): set<BstNode>
    reads node
  {
    if node == null then {} else node.Repr
  }

  /** The abstract subtree behind a possibly-NULL link. */
  ghost function ModelOf(node: BstNode?): Tree
    reads node
  {
    if node == null then Leaf else node.Model
  }

  class Bst {
    /** Incremented only when the first node becomes the root. */
    var size: nat
    var root: BstNode?

    ghost var Nodes: set<BstNode>
    ghost var Model: Tree

    /**
     * The container's invariant from bst_create on: the root owns the nodes,
     * the keys are in search order, and `size` is 0 before the first
     * successful insertion and 1 ever after.
     */
    ghost predicate Valid()
      reads this, Nodes
    {
      && (root == null ==> Nodes == {} && Model == Leaf)
      && (root != null ==> root in Nodes && root.Repr == Nodes && root.Valid() && Model == root.Model)
      && size == (if root == null then 0 else 1)
      && IsBST(Model)
    }

    /** bst_create: an empty container. */
    constructor ()
      ensures Valid() && fresh(this)
      ensures size == 0 && root == null && Nodes == {} && Model == Leaf
    {
      size := 0;
      root := null;
      Nodes := {};
      Model := Leaf;
    }
  }

  /**
   * addHelper: walk down from `existingNode` and attach `newNode` at the
   * first NULL link of its search path; report -1 when a node on the path
   * already holds its value. Only that one link changes.
   */
  method AddHelper(existingNode: BstNode, newNode: BstNode) returns (r: int)
    requires existingNode.Valid()
    requires newNode.Valid() && newNode.Repr == {newNode}
    requires newNode !in existingNode.Repr
    modifies existingNode.Repr
    decreases existingNode.Repr
    ensures existingNode.Valid()
    ensures r == (if Contains(old(existingNode.Model), newNode.data) then -1 else 0)
    ensures existingNode.Model == Insert(old(existingNode.Model), newNode.data)
    ensures old(existingNode.Repr) <= existingNode.Repr <= old(existingNode.Repr) + {newNode}
    ensures newNode in existingNode.Repr <==> r == 0
    // no existing node changes its key, and a link changes only from NULL to the new node
    ensures forall n :: n in old(existingNode.Repr) ==>
              && n.data == old(n.data)
              && (n.leftChild == old(n.leftChild) || (old(n.leftChild) == null && n.leftChild == newNode))
              && (n.rightChild == old(n.rightChild) || (old(n.rightChild) == null && n.rightChild == newNode))
  {
    if newNode.data < existingNode.data {
      if existingNode.leftChild == null {
        existingNode.leftChild := newNode;
        r := 0;
      } else {
        r := AddHelper(existingNode.leftChild, newNode);
      }
      existingNode.Repr, existingNode.Model :=
        existingNode.Repr + existingNode.leftChild.Repr,
        Node(existingNode.leftChild.Model, existingNode.data, existingNode.Model.right);
    } else if newNode.data > existingNode.data {
      if existingNode.rightChild == null {
        existingNode.rightChild := newNode;
        r := 0;
      } else {
        r := AddHelper(existingNode.rightChild, newNode);
      }
      existingNode.Repr, existingNode.Model :=
        existingNode.Repr + existingNode.rightChild.Repr,
        Node(existingNode.Model.left, existingNode.data, existingNode.rightChild.Model);
    } else {
      r := -1;
    }
  }

  /**
   * bst_add: -1 for a NULL container; otherwise a node is made for `item`
   * and becomes the root of an empty tree (result 1, the only path that
   * increments `size`) or goes to addHelper (0 when attached, -1 when the
   * search path already holds `item`). The node made for a rejected item is
   * simply never linked in.
   */
  method BstAdd(t: Bst?, item: int) returns (r: int)
    requires t != null ==> t.Valid()
    modifies t, if t == null then {} else t.Nodes
    ensures t == null ==> r == -1
    ensures t != null ==> t.Valid()
    ensures t != null ==>
              r == (if old(t.Model) == Leaf then 1 else if Contains(old(t.Model), item) then -1 else 0)
    ensures t != null ==> t.Model == Insert(old(t.Model), item)
    ensures t != null ==> Keys(t.Model) == Keys(old(t.Model)) + {item}
    ensures t != null ==> t.size == (if old(t.root) == null then old(t.size) + 1 else old(t.size))
    ensures t != null ==> old(t.Nodes) <= t.Nodes && fresh(t.Nodes - old(t.Nodes))
    ensures t != null && r == -1 ==> t.Nodes == old(t.Nodes)
    ensures t != null && r != -1 ==>
              exists nn: BstNode :: fresh(nn) && nn.data == item && t.Nodes == old(t.Nodes) + {nn}
    // the container's root link changes only when the tree was empty
    ensures t != null && old(t.root) != null ==> t.root == old(t.root)
    // no existing node changes its key, and a link changes only from NULL to a new node
    ensures t != null ==> forall n :: n in old(t.Nodes) ==>
              && n.data == old(n.data)
              && (n.leftChild == old(n.leftChild) ||
                  (old(n.leftChild) == null && n.leftChild != null && fresh(n.leftChild)))
              && (n.rightChild == old(n.rightChild) ||
                  (old(n.rightChild) == null && n.rightChild != null && fresh(n.rightChild)))
  {
    if t == null {
      return -1;
    }
    var newNode := new BstNode(item);
    if t.root == null {
      t.root := newNode;
      t.size := t.size + 1;
      t.Nodes, t.Model := newNode.Repr, newNode.Model;
      r := 1;
      assert t.Nodes == old(t.Nodes) + {newNode};
    } else {
      r := AddHelper(t.root, newNode);
      t.Nodes, t.Model := t.root.Repr, t.root.Model;
      if r == 0 {
        assert t.Nodes == old(t.Nodes) + {newNode};
      }
    }
    InsertKeepsBST(old(t.Model), item);
  }

  /** bst_empty: -1 for a NULL container, 0 while no key has been added, 1 afterwards. */
  method BstEmpty(t: Bst?) returns (r: int)
    requires t != null ==> t.Valid()
    ensures t == null ==> r == -1
    ensures t != null ==> (r == 0 <==> Keys(t.Model) == {}) && (r == 1 <==> Keys(t.Model) != {})
  {
    if t == null {
      return -1;
    }
    if t.size == 0 {
      r := 0;
    } else {
      assert t.Model.key in Keys(t.Model);
      r := 1;
    }
  }

  /**
   * bst_size: 0 for a NULL container, otherwise the `size` field, which is
   * 0 for an empty tree and 1 for any other, however many keys it holds.
   */
  method BstSize(t: Bst?) returns (n: nat)
    requires t != null ==> t.Valid()
    ensures t == null ==> n == 0
    ensures t != null ==> n == t.size && n == (if Keys(t.Model) == {} then 0 else 1)
  {
    if t == null {
      return 0;
    }
    if t.root != null {
      assert t.Model.key in Keys(t.Model);
    }
    n := t.size;
  }

  /** findHelper: 1 when the search path from `node` reaches a node holding `value`, else 0. */
  method FindHelper(node: BstNode?, value: int) returns (r: int)
    requires node != null ==> node.Valid()
    decreases ReprOf(node)
    ensures r == (if Contains(ModelOf(node), value) then 1 else 0)
  {
    if node == null {
      return 0;
    }
    if value == node.data {
      r := 1;
    } else if value < node.data {
      r := FindHelper(node.leftChild, value);
    } else {
      r := FindHelper(node.rightChild, value);
    }
  }

  /** bst_find: 0 for a NULL container; otherwise 1 exactly when `value` is a stored key. */
  method BstFind(t: Bst?, value: int) returns (r: int)
    requires t != null ==> t.Valid()
    ensures t == null ==> r == 0
    ensures t != null ==> (r == 1 <==> value in Keys(t.Model)) && (r == 0 <==> value !in Keys(t.Model))
  {
    if t == null {
      return 0;
    }
    r := FindHelper(t.root, value);
    ContainsIffKey(t.Model, value);
  }

  /** sumHelper: the sum of the keys below `node`, 0 for NULL. */
  method SumHelper(node: BstNode?) returns (s: int)
    requires node != null ==> node.Valid()
    decreases ReprOf(node)
    ensures s == Sum(ModelOf(node))
  {
    if node == null {
      return 0;
    }
    var l := SumHelper(node.leftChild);
    var r := SumHelper(node.rightChild);
    s := node.data + l + r;
  }

  /** bst_sum: 0 for a NULL container; otherwise the sum of the keys bst_print lists. */
  method BstSum(t: Bst?) returns (s: int)
    requires t != null ==> t.Valid()
    ensures t == null ==> s == 0
    ensures t != null ==> s == SeqSum(InOrder(t.Model)) && s == SeqSum(PreOrder(t.Model))
  {
    if t == null {
      return 0;
    }
    s := SumHelper(t.root);
    SumIsTraversalSum(t.Model);
  }

  /** prePrint: the keys below `node` in the order they are printed. */
  method PrePrint(node: BstNode?) returns (out: seq<int>)
    requires node != null ==> node.Valid()
    decreases ReprOf(node)
    ensures out == PreOrder(ModelOf(node))
  {
    if node == null {
      return [];
    }
    var l := PrePrint(node.leftChild);
    var r := PrePrint(node.rightChild);
    out := [node.data] + l + r;
  }

  /** iOPrint: the keys below `node` in the order they are printed. */
  method IOPrint(node: BstNode?) returns (out: seq<int>)
    requires node != null ==> node.Valid()
    decreases ReprOf(node)
    ensures out == InOrder(ModelOf(node))
  {
    if node == null {
      return [];
    }
    var l := IOPrint(node.leftChild);
    var r := IOPrint(node.rightChild);
    out := l + [node.data] + r;
  }

  /** postPrint: the keys below `node` in the order they are printed. */
  method PostPrint(node: BstNode?) returns (out: seq<int>)
    requires node != null ==> node.Valid()
    decreases ReprOf(node)
    ensures out == PostOrder(ModelOf(node))
  {
    if node == null {
      return [];
    }
    var l := PostPrint(node.leftChild);
    var r := PostPrint(node.rightChild);
    out := l + r + [node.data];
  }

  /**
   * bst_print: the printed keys. Nothing for a NULL container or an order
   * code other than -1 (pre-order), 0 (in-order) and 1 (post-order); the
   * in-order listing is strictly ascending, and every listing holds each
   * stored key exactly once.
   */
  method BstPrint(t: Bst?, order: int) returns (out: seq<int>)
    requires t != null ==> t.Valid()
    ensures t == null || order !in {-1, 0, 1} ==> out == []
    ensures t != null && order == -1 ==> out == PreOrder(t.Model)
    ensures t != null && order == 0 ==> out == InOrder(t.Model) && StrictlyAscending(out)
    ensures t != null && order == 1 ==> out == PostOrder(t.Model)
    ensures t != null && order in {-1, 0, 1} ==>
              && multiset(out) == multiset(InOrder(t.Model))
              && (forall x :: x in out <==> x in Keys(t.Model))
  {
    out := [];
    if t == null {
      return;
    }
    TraversalsArePermutations(t.Model);
    if order == -1 {
      out := PrePrint(t.root);
    } else if order == 0 {
      out := IOPrint(t.root);
      InOrderAscending(t.Model);
    } else if order == 1 {
      out := PostPrint(t.root);
    }
  }

  /**
   * Two insertions into a fresh container: the first becomes the root, the
   * second is attached (or rejected when it repeats the first). bst_empty then
   * reports 1, and `size` stays 1 although two distinct keys may now be stored.
   */
  method TwoAdds(a: int, b: int) returns (first: int, second: int, empty: int, size: nat, found: int)
    ensures first == 1
    ensures second == (if a == b then -1 else 0)
    ensures empty == 1
    ensures size == 1
    ensures found == 1
  {
    var t := new Bst();
    first := BstAdd(t, a);
    second := BstAdd(t, b);
    empty := BstEmpty(t);
    size := BstSize(t);
    found := BstFind(t, a);
  }
}
