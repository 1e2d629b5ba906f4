/** Key search: scan a node for the first key not smaller than k, then stop or descend. */
module BTreeSearch {
  import opened Results
  import opened BTreeNodes
  import opened KeySequences
  import opened BTreeShape

  /** The index of the first key not smaller than k (|keys| when every key is smaller). */
  function FindIndex(keys: seq<int>, k: int): (i: nat)
    ensures i <= |keys|
    ensures forall j :: 0 <= j < i ==> keys[j] < k
    ensures i < |keys| ==> k <= keys[i]
  {
    if keys == [] || k <= keys[0] then 0 else 1 + FindIndex(keys[1..], k)
  }

  /**
   * The node holding k and k's index in it, or None once a leaf is reached
   * without finding k. (An internal node lacking the child to descend into
   * makes the source fail with an index error; no well-formed tree has one,
   * and the model answers None there.)
   */
  function SearchRecursive(x: Node, k: int): (r: Option<(Node, nat)>)
    ensures r.Some? ==> r.value.1 < |r.value.0.keys| && r.value.0.keys[r.value.1] == k
  {
    var i := FindIndex(x.keys, k);
    if i < |x.keys| && k == x.keys[i] then Some((x, i))
    else if x.leaf then None
    else if i < |x.children| then SearchRecursive(x.children[i], k)
    else None
  }

  /** On a well-formed subtree with sorted keys, search fails exactly when k is absent. */
  lemma {:induction false} SearchFindsExactly(x: Node, k: int, t: nat)
    requires Sub(x, t) && Sorted(InOrder(x))
    ensures SearchRecursive(x, k).Some? <==> k in InOrder(x)
  {
    var i := FindIndex(x.keys, k);
    if i < |x.keys| && k == x.keys[i] {
      KeyInInOrder(x, i);
    } else if x.leaf {
      forall j | 0 <= j < |x.keys| ensures x.keys[j] != k {
        if j >= i { assert x.keys[i] <= x.keys[j]; }
      }
    } else {
      SeparatorBounds(x, i, k);
      Around(x, i);
      ChildSorted(x, i);
      SearchFindsExactly(x.children[i], k, t);
    }
  }

  /** The forward scan over a node's keys, as a loop: it stops at the first key not smaller than k. */
  method ScanKeys(keys: seq<int>, k: int) returns (i: nat)
    ensures i == FindIndex(keys, k)
  {
    i := 0;
    while i < |keys| && k > keys[i]
      invariant i <= |keys|
      invariant forall j :: 0 <= j < i ==> keys[j] < k
    {
      i := i + 1;
    }
  }

  /** The recursive search, one scan per node visited. */
  method SearchNode(x: Node, k: int) returns (r: Option<(Node, nat)>)
    ensures r == SearchRecursive(x, k)
    decreases x
  {
    var i := ScanKeys(x.keys, k);
    if i < |x.keys| && k == x.keys[i] {
      return Some((x, i));
    }
    if x.leaf {
      return None;
    }
    if i < |x.children| {
      r := SearchNode(x.children[i], k);
    } else {
      r := None;
    }
  }
}
