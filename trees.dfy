/**
 * The abstract view of a binary search tree of integer keys: the value that
 * the heap nodes of `SearchTree` stand for, the recursive readers of bst.c
 * (search, sum and the three traversals) as functions over that value, the
 * insertion step of bst_add/addHelper as a function, and the properties the
 * container promises, proved as lemmas.
 */
module Trees {

  /** A subtree: absent (a NULL link) or a node with a key and two child links. */
  datatype Tree = Leaf | Node(left: Tree, key: int, right: Tree)

  /** The set of keys stored in a tree. */
  function Keys(t: Tree): set<int>
  {
    match t
    case Leaf => {}
    case Node(l, k, r) => Keys(l) + {k} + Keys(r)
  }

  /** The number of nodes of a tree. */
  function NodeCount(t: Tree): nat
  {
    match t
    case Leaf => 0
    case Node(l, _, r) => NodeCount(l) + 1 + NodeCount(r)
  }

  /** The ordering invariant: left keys below the node's key, right keys above it. */
  predicate IsBST(t: Tree)
  {
    match t
    case Leaf => true
    case Node(l, k, r) =>
      && IsBST(l) && IsBST(r)
      && (forall x :: x in Keys(l) ==> x < k)
      && (forall x :: x in Keys(r) ==> k < x)
  }

  /**
   * The search of findHelper: follow the search path for `v` and report
   * whether a node on it holds `v`. Whatever the tree, a hit is a real key.
   */
  function Contains(t: Tree, v: int): (found: bool)
    ensures found ==> v in Keys(t)
  {
    match t
    case Leaf => false
    case Node(l, k, r) =>
      if v == k then true
      else if v < k then Contains(l, v)
      else Contains(r, v)
  }

  /**
   * The insertion of bst_add/addHelper: walk the search path of `v`; at the
   * first absent link attach a fresh leaf node holding `v`; if a node on the
   * path already holds `v`, change nothing.
   */
  function Insert(t: Tree, v: int): (r: Tree)
    ensures Keys(r) == Keys(t) + {v}
    ensures Contains(r, v)
    ensures Contains(t, v) ==> r == t
    ensures NodeCount(r) == NodeCount(t) + (if Contains(t, v) then 0 else 1)
  {
    match t
    case Leaf => Node(Leaf, v, Leaf)
    case Node(l, k, rt) =>
      if v < k then Node(Insert(l, v), k, rt)
      else if v > k then Node(l, k, Insert(rt, v))
      else t
  }

  /** prePrint: node, then left subtree, then right subtree. */
  function PreOrder(t: Tree): (s: seq<int>)
    ensures |s| == NodeCount(t)
    ensures forall x :: x in s <==> x in Keys(t)
  {
    match t
    case Leaf => []
    case Node(l, k, r) => [k] + PreOrder(l) + PreOrder(r)
  }

  /** iOPrint: left subtree, then node, then right subtree. */
  function InOrder(t: Tree): (s: seq<int>)
    ensures |s| == NodeCount(t)
    ensures forall x :: x in s <==> x in Keys(t)
  {
    match t
    case Leaf => []
    case Node(l, k, r) => InOrder(l) + [k] + InOrder(r)
  }

  /** postPrint: left subtree, then right subtree, then node. */
  function PostOrder(t: Tree): (s: seq<int>)
    ensures |s| == NodeCount(t)
    ensures forall x :: x in s <==> x in Keys(t)
  {
    match t
    case Leaf => []
    case Node(l, k, r) => PostOrder(l) + PostOrder(r) + [k]
  }

  /** sumHelper: a node's key plus the sums of its two subtrees, 0 for an absent one. */
  function Sum(t: Tree): (s: int)
    ensures (forall x :: x in Keys(t) ==> 0 <= x) ==> 0 <= s
    ensures (forall x :: x in Keys(t) ==> x <= 0) ==> s <= 0
  {
    match t
    case Leaf => 0
    case Node(l, k, r) =>
      assert Keys(l) <= Keys(t) && Keys(r) <= Keys(t);
      k + Sum(l) + Sum(r)
  }

  /** The arithmetic sum of a sequence of keys. */
  function SeqSum(s: seq<int>): int
  {
    if s == [] then 0 else s[0] + SeqSum(s[1..])
  }

  predicate StrictlyAscending(s: seq<int>)
  {
    forall i, j :: 0 <= i < j < |s| ==> s[i] < s[j]
  }

  /** On a search tree the search of findHelper finds exactly the stored keys. */
  lemma {:induction false} ContainsIffKey(t: Tree, v: int)
    requires IsBST(t)
    ensures Contains(t, v) <==> v in Keys(t)
  {
    match t
    case Leaf =>
    case Node(l, k, r) =>
      if v < k {
        ContainsIffKey(l, v);
        assert v !in Keys(r);
      } else if v > k {
        ContainsIffKey(r, v);
        assert v !in Keys(l);
      }
  }

  /** Insertion sends a smaller key left and a larger one right, so the ordering survives. */
  lemma {:induction false} InsertKeepsBST(t: Tree, v: int)
    requires IsBST(t)
    ensures IsBST(Insert(t, v))
  {
    match t
    case Leaf =>
    case Node(l, k, r) =>
      if v < k {
        InsertKeepsBST(l, v);
      } else if v > k {
        InsertKeepsBST(r, v);
      }
  }

  /** On a search tree, a value is rejected by insertion exactly when it is already a key. */
  lemma InsertRejectsExactlyKeys(t: Tree, v: int)
    requires IsBST(t)
    ensures Insert(t, v) == t <==> v in Keys(t)
  {
    ContainsIffKey(t, v);
    if Insert(t, v) == t {
      assert v in Keys(Insert(t, v));
    }
  }

  /** The in-order traversal of a search tree is strictly ascending. */
  lemma {:induction false} InOrderAscending(t: Tree)
    requires IsBST(t)
    ensures StrictlyAscending(InOrder(t))
  {
    match t
    case Leaf =>
    case Node(l, k, r) =>
      InOrderAscending(l);
      InOrderAscending(r);
      var a, b := InOrder(l), InOrder(r);
      var s := a + [k] + b;
      forall i, j | 0 <= i < j < |s|
        ensures s[i] < s[j]
      {
        if j < |a| {
          assert s[i] == a[i] && s[j] == a[j];
        } else if i >= |a| + 1 {
          assert s[i] == b[i - |a| - 1] && s[j] == b[j - |a| - 1];
        } else {
          // s[i] is a left key or k, and s[j] is k or a right key
          if i < |a| {
            assert s[i] == a[i] && a[i] in Keys(l);
          } else {
            assert s[i] == k;
          }
          if j > |a| {
            assert s[j] == b[j - |a| - 1] && b[j - |a| - 1] in Keys(r);
          } else {
            assert s[j] == k;
          }
        }
      }
  }

  /** The three traversals list the same keys with the same multiplicities. */
  lemma {:induction false} TraversalsArePermutations(t: Tree)
    ensures multiset(PreOrder(t)) == multiset(InOrder(t))
    ensures multiset(PostOrder(t)) == multiset(InOrder(t))
  {
    match t
    case Leaf =>
    case Node(l, k, r) =>
      TraversalsArePermutations(l);
      TraversalsArePermutations(r);
  }

  lemma {:induction false} SeqSumAppend(a: seq<int>, b: seq<int>)
    ensures SeqSum(a + b) == SeqSum(a) + SeqSum(b)
  {
    if a == [] {
      assert a + b == b;
    } else {
      assert (a + b)[1..] == a[1..] + b;
      SeqSumAppend(a[1..], b);
    }
  }

  /** sumHelper adds up exactly the keys each traversal emits. */
  lemma {:induction false} SumIsTraversalSum(t: Tree)
    ensures Sum(t) == SeqSum(InOrder(t))
    ensures Sum(t) == SeqSum(PreOrder(t))
    ensures Sum(t) == SeqSum(PostOrder(t))
  {
    match t
    case Leaf =>
    case Node(l, k, r) =>
      SumIsTraversalSum(l);
      SumIsTraversalSum(r);
      SeqSumAppend(InOrder(l) + [k], InOrder(r));
      SeqSumAppend(InOrder(l), [k]);
      SeqSumAppend([k] + PreOrder(l), PreOrder(r));
      SeqSumAppend([k], PreOrder(l));
      SeqSumAppend(PostOrder(l) + PostOrder(r), [k]);
      SeqSumAppend(PostOrder(l), PostOrder(r));
  }

  /** The tree that bst.c's main builds, as a literal. */
  function DriverTree(): Tree
  {
    Node(Node(Node(Leaf, 20, Leaf), 30, Node(Leaf, 40, Leaf)), 50,
         Node(Node(Leaf, 60, Leaf), 70, Node(Leaf, 80, Leaf)))
  }

  /** The seven insertions of bst.c's main, in order, build DriverTree. */
  lemma DriverInsertions()
    ensures Insert(Insert(Insert(Insert(Insert(Insert(Insert(
              Leaf, 50), 30), 70), 20), 40), 60), 80) == DriverTree()
  {
    var t1 := Insert(Leaf, 50);
    assert t1 == Node(Leaf, 50, Leaf);
    var t2 := Insert(t1, 30);
    assert t2 == Node(Node(Leaf, 30, Leaf), 50, Leaf);
    var t3 := Insert(t2, 70);
    assert t3 == Node(Node(Leaf, 30, Leaf), 50, Node(Leaf, 70, Leaf));
    var t4 := Insert(t3, 20);
    assert t4 == Node(Node(Node(Leaf, 20, Leaf), 30, Leaf), 50, Node(Leaf, 70, Leaf));
    var t5 := Insert(t4, 40);
    assert t5 == Node(Node(Node(Leaf, 20, Leaf), 30, Node(Leaf, 40, Leaf)), 50, Node(Leaf, 70, Leaf));
    var t6 := Insert(t5, 60);
    assert t6 == Node(Node(Node(Leaf, 20, Leaf), 30, Node(Leaf, 40, Leaf)), 50,
                      Node(Node(Leaf, 60, Leaf), 70, Leaf));
  }

  /** The in-order listing of bst_print on the tree of bst.c's main. */
  lemma DriverInOrder()
    ensures InOrder(DriverTree()) == [20, 30, 40, 50, 60, 70, 80]
  {
    assert InOrder(Node(Node(Leaf, 20, Leaf), 30, Node(Leaf, 40, Leaf))) == [20, 30, 40];
    assert InOrder(Node(Node(Leaf, 60, Leaf), 70, Node(Leaf, 80, Leaf))) == [60, 70, 80];
  }

  /** The pre-order listing of bst_print on the tree of bst.c's main. */
  lemma DriverPreOrder()
    ensures PreOrder(DriverTree()) == [50, 30, 20, 40, 70, 60, 80]
  {
    assert PreOrder(Node(Node(Leaf, 20, Leaf), 30, Node(Leaf, 40, Leaf))) == [30, 20, 40];
    assert PreOrder(Node(Node(Leaf, 60, Leaf), 70, Node(Leaf, 80, Leaf))) == [70, 60, 80];
  }

  /** The post-order listing of bst_print on the tree of bst.c's main. */
  lemma DriverPostOrder()
    ensures PostOrder(DriverTree()) == [20, 40, 30, 60, 80, 70, 50]
  {
    assert PostOrder(Node(Node(Leaf, 20, Leaf), 30, Node(Leaf, 40, Leaf))) == [20, 40, 30];
    assert PostOrder(Node(Node(Leaf, 60, Leaf), 70, Node(Leaf, 80, Leaf))) == [60, 80, 70];
  }

  /** What bst_sum reports on the tree of bst.c's main. */
  lemma DriverSum()
    ensures Sum(DriverTree()) == 350
  {
  }

  /** What bst_find reports on the tree of bst.c's main for a stored and a missing value. */
  lemma DriverFind()
    ensures Contains(DriverTree(), 40) && !Contains(DriverTree(), 999)
  {
    assert !Contains(Node(Leaf, 80, Leaf), 999);
    assert !Contains(Node(Node(Leaf, 60, Leaf), 70, Node(Leaf, 80, Leaf)), 999);
  }
}
