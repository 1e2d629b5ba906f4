/**
 * The per-node checks the tree's contracts are built from: bounds on the
 * number of keys and of children of one node, and the order of the keys
 * inside one node.
 */
module ContractsHelpers {
  import opened BTreeNodes
  import opened KeySequences

  /**
   * The key count of one node: an empty root leaf (the empty tree) is
   * accepted; otherwise the node holds between 1 (root) or t-1 (any other
   * node) and 2t-1 keys.
   */
  predicate CheckNodeKeyCount(node: Node, t: nat, isRoot: bool)
  {
    if node.keys == [] && isRoot && node.leaf then true
    else (if isRoot then 1 else t - 1) <= |node.keys| <= 2 * t - 1
  }

  /**
   * The child count of one node: a leaf has none; an internal node has one
   * more child than keys, between 2 (root) or t (any other node) and 2t.
   */
  predicate CheckNodeChildCount(node: Node, t: nat, isRoot: bool)
  {
    if node.leaf then |node.children| == 0
    else if |node.children| != |node.keys| + 1 then false
    else (if isRoot then 2 else t) <= |node.children| <= 2 * t
  }

  /**
   * Each key is at most the next one. Comparing neighbours is enough to
   * order every pair, so the check accepts exactly the non-decreasing lists
   * (repeated keys included).
   */
  function CheckKeysSorted(keys: seq<int>): (ok: bool)
    ensures ok <==> NonDecreasing(keys)
  {
    NeighboursOrderAll(keys);
    forall i :: 0 <= i < |keys| - 1 ==> keys[i] <= keys[i + 1]
  }

  lemma NeighboursOrderAll(keys: seq<int>)
    ensures (forall i :: 0 <= i < |keys| - 1 ==> keys[i] <= keys[i + 1]) ==> NonDecreasing(keys)
  {
    if forall i :: 0 <= i < |keys| - 1 ==> keys[i] <= keys[i + 1] {
      forall i, j | 0 <= i < j < |keys| ensures keys[i] <= keys[j] {
        NeighboursChain(keys, i, j);
      }
    }
  }

  lemma {:induction false} NeighboursChain(keys: seq<int>, i: nat, j: nat)
    requires forall m :: 0 <= m < |keys| - 1 ==> keys[m] <= keys[m + 1]
    requires i <= j < |keys|
    ensures keys[i] <= keys[j]
    decreases j - i
  {
    if i < j {
      NeighboursChain(keys, i + 1, j);
    }
  }
}
