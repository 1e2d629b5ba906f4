/**
 * The B-tree object: a root node that insert and delete replace, and the
 * minimum degree t fixed at construction. The public operations check
 * their pre-conditions (the key must be absent for insert, present for
 * delete) and refuse with an error, leaving the tree unchanged, when one
 * fails. On success they keep the class invariant and report the height
 * and root size recorded before the operation, as the post-conditions use.
 */
module BTrees {
  import opened Results
  import opened BTreeNodes
  import opened KeySequences
  import opened BTreeShape
  import opened BTreeSearch
  import opened BTreeInsert
  import opened BTreeDelete
  import opened BTreeChecks

  class BTree {
    var root: Node
    const t: nat

    /** The class invariant: a valid B-tree of minimum degree t. */
    ghost predicate Valid()
      reads this
    {
      ValidTree(root, t)
    }

    /** An empty tree: a single leaf root without keys. */
    constructor (t: nat)
      requires t >= 2
      ensures Valid() && this.t == t && root == NewNode(true)
    {
      this.t := t;
      root := NewNode(true);
    }

    /** Construction refuses a minimum degree below 2. */
    static method Create(t: int) returns (out: Outcome, tree: BTree?)
      ensures t < 2 ==> out == Fail(InvalidOrder) && tree == null
      ensures t >= 2 ==> out == Pass && tree != null && fresh(tree)
      ensures t >= 2 ==> tree != null && tree.Valid() && tree.t == t && tree.root.leaf
      ensures t >= 2 ==> tree != null && InOrder(tree.root) == [] && Height(tree.root) == 0
    {
      if t < 2 {
        return Fail(InvalidOrder), null;
      }
      tree := new BTree(t);
      out := Pass;
    }

    /** The height: 0 for a leaf root, otherwise the length of the walk down the first children. */
    method GetHeight() returns (h: nat)
      requires Valid()
      ensures h == Height(root)
    {
      if root.leaf {
        return 0;
      }
      h := WalkHeight(root, t);
    }

    /** The node holding k and its index there, if any; on a valid tree, found exactly when k is stored. */
    method Search(k: int) returns (r: Option<(Node, nat)>)
      requires Valid()
      ensures r == SearchRecursive(root, k)
      ensures r.Some? <==> k in InOrder(root)
    {
      r := SearchNode(root, k);
      SearchFindsExactly(root, k, t);
    }

    /**
     * Insert k. A key already present is refused. Otherwise the in-order keys
     * gain k at its sorted place, k can be found, the checks pass, and the
     * height grows by one exactly when the root was full.
     */
    method Insert(k: int) returns (out: Outcome, height: nat, rootKeysLen: nat)
      requires Valid()
      modifies this
      ensures Valid()
      ensures height == old(Height(root)) && rootKeysLen == old(|root.keys|)
      ensures out == (if k in old(InOrder(root)) then Fail(DuplicateKey) else Pass)
      ensures out.Fail? ==> root == old(root)
      ensures forall x :: x in InOrder(root) <==> x in old(InOrder(root)) || x == k
      ensures out.Pass? ==> root == InsertTree(old(root), k, t)
      ensures out.Pass? ==> InOrder(root) == InsertSorted(old(InOrder(root)), k)
      ensures out.Pass? ==> SearchRecursive(root, k).Some?
      ensures out.Pass? ==> Height(root) == (if rootKeysLen == 2 * t - 1 then height + 1 else height)
      ensures CheckStructuralPostconditions(root, t) && CheckAllInvariants(root)
    {
      ValidTreePassesChecks(root, t);
      var found := Search(k);
      height := GetHeight();
      rootKeysLen := |root.keys|;
      if found.Some? {
        return Fail(DuplicateKey), height, rootKeysLen;
      }
      InsertTreeCorrect(root, k, t);
      root := InsertTree(root, k, t);
      ValidTreePassesChecks(root, t);
      InsertSortedElements(old(InOrder(root)), k);
      SearchFindsExactly(root, k, t);
      out := Pass;
    }

    /**
     * Delete k. A key not present is refused. Otherwise the in-order keys lose
     * k, k is no longer found, the checks pass, and the height stays or drops
     * by one, dropping only when the root was internal with a single key.
     */
    method Delete(k: int) returns (out: Outcome, height: nat, rootKeysLen: nat, rootIsLeaf: bool)
      requires Valid()
      modifies this
      ensures Valid()
      ensures height == old(Height(root)) && rootKeysLen == old(|root.keys|) && rootIsLeaf == old(root.leaf)
      ensures out == (if k in old(InOrder(root)) then Pass else Fail(KeyNotFound))
      ensures out.Fail? ==> root == old(root)
      ensures forall x :: x in InOrder(root) <==> x in old(InOrder(root)) && x != k
      ensures out.Pass? ==> root == DeleteTree(old(root), k, t, true)
      ensures out.Pass? ==> InOrder(root) == Remove(old(InOrder(root)), k)
      ensures out.Pass? ==> SearchRecursive(root, k).None?
      ensures out.Pass? ==> Height(root) == height || Height(root) == height - 1
      ensures out.Pass? && Height(root) == height - 1 ==> rootKeysLen == 1 && !rootIsLeaf
      ensures CheckStructuralPostconditions(root, t) && CheckAllInvariants(root)
    {
      ValidTreePassesChecks(root, t);
      var found := Search(k);
      height := GetHeight();
      rootKeysLen, rootIsLeaf := |root.keys|, root.leaf;
      if found.None? {
        return Fail(KeyNotFound), height, rootKeysLen, rootIsLeaf;
      }
      DeleteTreeCorrect(root, k, t, true);
      DeleteRecSub(root, k, t, true);
      ghost var expected := DeleteTree(root, k, t, true);
      var r := DeleteRec(root, k, t, true);
      if |r.keys| == 0 && !r.leaf {
        root := r.children[0];
      } else {
        root := r;
      }
      assert root == expected;
      ValidTreePassesChecks(root, t);
      SearchFindsExactly(root, k, t);
      out := Pass;
    }
  }

  /** A valid tree holding no keys is the empty leaf root. */
  lemma EmptyTree(root: Node, t: nat)
    requires ValidTree(root, t) && InOrder(root) == []
    ensures root == NewNode(true) && Height(root) == 0
  {
  }
}
