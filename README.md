# Unbalanced binary search tree of `int` keys (bst.c)

This project models `bst.c`. That file is an unbalanced binary search tree of integer keys
behind a small container. The container `bst_t` holds a `root` link and an `unsigned size`.
Each node `bstnode_t` holds `data` and two child links. The model has two modules:

- `Trees` (trees.dfy) is the abstract value of a tree: `datatype Tree = Leaf | Node(left, key, right)`.
  It holds the recursive readers as functions: `Contains` (findHelper), `Sum` (sumHelper),
  and `PreOrder`/`InOrder`/`PostOrder` (prePrint/iOPrint/postPrint, with the printed keys
  returned as a sequence). It also holds `Insert`, the effect of bst_add/addHelper on that value,
  and the lemmas: search is exact on a search tree, insertion keeps the ordering, the in-order
  listing is strictly ascending, the three listings are permutations of one another, and the sum
  equals the sum of every listing. The scenario of bst.c's `main` is proved on this value.
- `SearchTree` (search_tree.dfy) is the heap. `BstNode` is `bstnode_t` and `Bst` is `bst_t`.
  Each keeps ghost fields for the nodes it owns (`Repr`/`Nodes`) and for the abstract tree its
  links spell out (`Model`). makeNode and bst_create are the constructors of `BstNode` and `Bst`.
  The public functions and the recursive readers are methods over nullable references, so a NULL
  container or a NULL link is an ordinary input; `AddHelper`, like addHelper, is only called on a
  non-NULL node. `AddHelper` walks down the real links and overwrites at most one NULL child link,
  exactly one when it returns 0. It is proved against `Insert`. The readers walk the
  real links and are proved against the `Trees` functions.

A field named `size` suggests a node count, which would be 7 after `main`'s seven insertions.
The model follows the code instead. `size` is incremented only when the first node becomes the
root (bst.c:57-60). The other successful path returns from addHelper without touching it
(bst.c:64). So `Bst.Valid` states `size == (if root == null then 0 else 1)`. `BstSize` returns 1
for every non-empty tree, and `TwoAdds` shows `size == 1` after two distinct insertions.
Likewise, `bst_empty` returns 0 exactly while no key has been added.

The traversal order stays the integer code of the C API: -1, 0 or 1, and any other value prints
nothing.

## Model

| member | source | states |
|---|---|---|
| `Trees.Contains` | bst.c:180-195 | a value found along the search path is a stored key, on any tree |
| `Trees.ContainsIffKey` | bst.c:180-195 | on a search tree, the search finds a value exactly when it is a stored key |
| `Trees.Insert` | bst.c:68-91 | insertion adds exactly the new value to the key set; it adds one node unless the value is already on the search path, in which case the tree is unchanged; the value is found afterwards |
| `Trees.InsertKeepsBST` | bst.c:68-88 | a smaller value goes left and a larger one right, so insertion keeps the search-tree ordering |
| `Trees.InsertRejectsExactlyKeys` | bst.c:79-90 | on a search tree, insertion leaves the tree unchanged exactly when the value is already stored |
| `Trees.PreOrder` | bst.c:110-119 | the pre-order listing has one entry per node and holds exactly the stored keys |
| `Trees.InOrder` | bst.c:122-131 | the in-order listing has one entry per node and holds exactly the stored keys |
| `Trees.PostOrder` | bst.c:134-143 | the post-order listing has one entry per node and holds exactly the stored keys |
| `Trees.InOrderAscending` | bst.c:122-131 | on a search tree, the in-order listing is strictly ascending |
| `Trees.TraversalsArePermutations` | bst.c:110-143 | the pre-, in- and post-order listings are permutations of one another |
| `Trees.Sum` | bst.c:160-167 | the sum of a tree whose keys are all non-negative is non-negative, and of one whose keys are all non-positive is non-positive |
| `Trees.SumIsTraversalSum` | bst.c:160-167 | sumHelper's total equals the sum of each of the three listings, and 0 for an empty tree |
| `Trees.DriverInsertions` | bst.c:229-238 | inserting 50, 30, 70, 20, 40, 60, 80 into an empty tree builds the three-level tree rooted at 50 |
| `Trees.DriverInOrder` | bst.c:241-242 | that tree's in-order listing is 20,30,40,50,60,70,80 |
| `Trees.DriverPreOrder` | bst.c:244-245 | that tree's pre-order listing is 50,30,20,40,70,60,80 |
| `Trees.DriverPostOrder` | bst.c:247-248 | that tree's post-order listing is 20,40,30,60,80,70,50 |
| `Trees.DriverSum` | bst.c:260-261 | that tree's sum is 350 |
| `Trees.DriverFind` | bst.c:263-269 | in that tree, 40 is found and 999 is not |
| `SearchTree.BstNode.constructor` | bst.c:18-26 | makeNode gives a valid one-node subtree holding the value, with two NULL links |
| `SearchTree.Bst.constructor` | bst.c:29-36 | bst_create gives a valid empty container with size 0 and a NULL root |
| `SearchTree.AddHelper` | bst.c:68-91 | the subtree becomes `Insert` of its old value; the result is -1 when the value is on the search path and 0 otherwise; the new node joins the owned nodes exactly when 0 is returned; no existing node changes its key, and a link changes only from NULL to the new node |
| `SearchTree.BstAdd` | bst.c:50-65 | a NULL container gives -1; otherwise the tree becomes `Insert` of the old one, and the keys become the old keys plus the item; the result is 1 for an empty tree, -1 for a value on the search path, and 0 otherwise; size grows only on the empty-tree path; the ordering invariant is kept; on a successful insertion exactly one fresh node holding the item joins the owned nodes, and on a rejection none does; the root link changes only when the tree was empty; existing keys never change and a child link changes only from NULL to a fresh node |
| `SearchTree.BstEmpty` | bst.c:39-47 | -1 for a NULL container, 0 exactly when no key is stored, and 1 exactly when some key is stored |
| `SearchTree.BstSize` | bst.c:198-203 | 0 for a NULL container; otherwise the size field, which is 0 for an empty tree and 1 for any non-empty tree |
| `SearchTree.FindHelper` | bst.c:180-195 | walking the real links gives 1 exactly when the search on the abstract subtree succeeds, and 0 otherwise |
| `SearchTree.BstFind` | bst.c:170-177 | 0 for a NULL container; otherwise 1 exactly when the value is a stored key, and 0 exactly when it is not |
| `SearchTree.SumHelper` | bst.c:160-167 | walking the real links gives the sum of the abstract subtree |
| `SearchTree.BstSum` | bst.c:146-157 | 0 for a NULL container; otherwise the sum of the in-order listing, which is also the sum of the pre-order listing |
| `SearchTree.PrePrint` | bst.c:110-119 | the keys printed from the real links are the pre-order listing of the abstract subtree |
| `SearchTree.IOPrint` | bst.c:122-131 | the keys printed from the real links are the in-order listing of the abstract subtree |
| `SearchTree.PostPrint` | bst.c:134-143 | the keys printed from the real links are the post-order listing of the abstract subtree |
| `SearchTree.BstPrint` | bst.c:94-107 | nothing is printed for a NULL container or an order code other than -1/0/1; -1 gives pre-order, 0 gives in-order (strictly ascending), and 1 gives post-order; each listing is a permutation of the in-order one and holds exactly the stored keys |
| `SearchTree.TwoAdds` | bst.c:50-65 | in a fresh container, the first insertion returns 1 and the second returns 0 (or -1 for a repeat); bst_empty then reports 1, size is 1, and the first value is found |

## Left out

- `bst_free` and `freeHelper` (bst.c:206-225) are not modelled, nor is `malloc`/`free`. Dafny has no deallocation. `bst_free` also dereferences its argument without a NULL check.
- The unchecked `malloc` results in `makeNode` and `bst_create` are not modelled. Allocation always succeeds here.
- The node that `bst_add` allocates for a rejected duplicate is not modelled as leaked memory. It is simply never linked in, and only the rest of the container's state is stated.
- Keys are mathematical integers rather than 32-bit `int`. The comparisons mean the same. `Sum` does not model the signed overflow of `sumHelper` (bst.c:165), which is undefined behaviour in C.
- `size` is a natural number rather than a 32-bit `unsigned`. It never exceeds 1, so wrap-around cannot occur.
- `printf` and its formatting are not modelled. Each traversal returns the sequence of keys it would print, one per line.
- The text of `main` is not modelled (bst.c:227-275). Its seven insertions, the three listings, the sum and the search are stated on the abstract tree (`Trees.Driver*`). What bst_empty and bst_size report for it (1 and 1) follows from the contracts of `BstEmpty` and `BstSize` for any non-empty container. The heap-level client is `SearchTree.TwoAdds`.
- Call-stack depth of the recursive helpers on degenerate, list-shaped trees is not modelled.
