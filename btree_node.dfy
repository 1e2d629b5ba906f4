/**
 * The node record of the B-tree: a `leaf` flag, the node's ordered `keys`
 * and, for an internal node, one more child than keys.
 */
module BTreeNodes {

  datatype Node = Node(leaf: bool, keys: seq<int>, children: seq<Node>)

  /** A freshly created node: no keys, no children, the given leaf flag
      (internal by default, as in the node constructor). */
  function NewNode(leaf: bool := false): (n: Node)
    ensures n.leaf == leaf
    ensures n.keys == [] && n.children == []
  {
    Node(leaf, [], [])
  }
}
