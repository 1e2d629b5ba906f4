/**
 * The tree-wide checks behind the contracts: the keys of a subtree, the
 * depths of its leaves, the recursive node-property check and the count
 * check applied to every node. The main lemmas relate these executable
 * checks to the invariant `ValidTree` the operations are proved against.
 */
module BTreeChecks {
  import opened BTreeNodes
  import opened Results
  import opened KeySequences
  import opened BTreeShape
  import opened ContractsHelpers

  /** Every key stored in the subtree, the node's own keys first. */
  function AllKeys(n: Node): seq<int>
  {
    n.keys + AllKeysOf(n.children)
  }

  function AllKeysOf(cs: seq<Node>): seq<int>
  {
    if cs == [] then [] else AllKeys(cs[0]) + AllKeysOf(cs[1..])
  }

  /** The keys of an optional subtree: none for an absent one. */
  function GetAllKeys(n: Option<Node>): seq<int>
  {
    match n
    case None => []
    case Some(x) => AllKeys(x)
  }

  /** Depth of every leaf below n, n itself lying at depth d. */
  function LeafDepths(n: Node, d: nat): seq<nat>
  {
    (if n.leaf then [d] else []) + LeafDepthsOf(n.children, d + 1)
  }

  function LeafDepthsOf(cs: seq<Node>, d: nat): seq<nat>
  {
    if cs == [] then [] else LeafDepths(cs[0], d) + LeafDepthsOf(cs[1..], d)
  }

  /** The leaf depths of the whole tree; the empty tree reports depth 0. */
  function GetAllLeafDepths(root: Node): seq<nat>
  {
    if root.keys == [] && root.leaf then [0] else LeafDepths(root, 0)
  }

  /**
   * Separator i of n bounds its neighbours strictly: every key below child i
   * is smaller, every key below child i+1 larger. A missing child i+1 fails
   * the check.
   */
  predicate Separates(n: Node, i: nat)
    requires i < |n.keys|
  {
    && i + 1 < |n.children|
    && var left, right := n.children[i], n.children[i + 1];
    && (forall e :: e in GetAllKeys(Some(left)) ==> e < n.keys[i])
    && (forall e :: e in GetAllKeys(Some(right)) ==> n.keys[i] < e)
  }

  /** Keys sorted inside every node and every separator bounding its two children, down the whole subtree. */
  predicate CheckNodeProperties(n: Node)
  {
    && CheckKeysSorted(n.keys)
    && (!n.leaf ==>
          && (forall i :: 0 <= i < |n.keys| ==> Separates(n, i))
          && forall j :: 0 <= j < |n.children| ==> CheckNodeProperties(n.children[j]))
  }

  /** Both count checks at n (as root or not) and, as non-roots, at every node below it. */
  predicate CheckCounts(n: Node, t: nat, isRoot: bool)
  {
    && CheckNodeKeyCount(n, t, isRoot)
    && CheckNodeChildCount(n, t, isRoot)
    && forall j :: 0 <= j < |n.children| ==> CheckCounts(n.children[j], t, false)
  }

  /** The structural post-condition of insert and delete. */
  predicate CheckStructuralPostconditions(root: Node, t: nat)
  {
    CheckCounts(root, t, true)
  }

  /** The distinct values of a list of depths. */
  function DepthSet(s: seq<nat>): set<nat>
  {
    set e | e in s
  }

  /** The class invariant: at most one distinct leaf depth, and the node properties. */
  predicate CheckAllInvariants(root: Node)
  {
    && |DepthSet(GetAllLeafDepths(root))| <= 1
    && CheckNodeProperties(root)
  }

  // ---------------------------------------------------------------------
  // The keys of a subtree

  /** In a well-formed subtree the collected keys are the in-order keys, up to order. */
  lemma GetAllKeysMultiset(x: Node, t: nat)
    requires Sub(x, t)
    ensures multiset(GetAllKeys(Some(x))) == multiset(InOrder(x))
    ensures forall e :: e in GetAllKeys(Some(x)) <==> e in InOrder(x)
  {
    AllKeysInOrder(x, t);
    forall e ensures e in AllKeys(x) <==> e in InOrder(x) {
      assert e in AllKeys(x) <==> e in multiset(AllKeys(x));
      assert e in InOrder(x) <==> e in multiset(InOrder(x));
    }
  }

  lemma {:induction false} AllKeysInOrder(x: Node, t: nat)
    requires Sub(x, t)
    ensures multiset(AllKeys(x)) == multiset(InOrder(x))
    decreases x, 1
  {
    if x.leaf {
      assert x.keys + [] == x.keys;
    } else {
      InterleaveKeys(x.children, x.keys, t);
    }
  }

  lemma {:induction false} InterleaveKeys(cs: seq<Node>, ks: seq<int>, t: nat)
    requires |cs| == |ks| + 1
    requires forall i :: 0 <= i < |cs| ==> Sub(cs[i], t)
    ensures multiset(Interleave(cs, ks)) == multiset(ks) + multiset(AllKeysOf(cs))
    decreases cs, 0
  {
    AllKeysInOrder(cs[0], t);
    if ks == [] {
      assert cs[1..] == [];
    } else {
      assert forall i :: 0 <= i < |cs[1..]| ==> cs[1..][i] == cs[i + 1];
      InterleaveKeys(cs[1..], ks[1..], t);
      assert ks == [ks[0]] + ks[1..];
    }
  }

  // ---------------------------------------------------------------------
  // Leaf depths

  lemma {:induction false} LeafDepthsMember(cs: seq<Node>, d: nat, j: nat, e: nat)
    requires j < |cs| && e in LeafDepths(cs[j], d)
    ensures e in LeafDepthsOf(cs, d)
    decreases j
  {
    if j > 0 {
      LeafDepthsMember(cs[1..], d, j - 1, e);
    }
  }

  /** In a well-formed subtree every leaf lies Height(n) levels below n. */
  lemma {:induction false} LeafDepthsOfSub(n: Node, t: nat, d: nat)
    requires Sub(n, t)
    ensures forall e :: e in LeafDepths(n, d) ==> e == d + Height(n)
    decreases n, 1
  {
    if n.leaf {
      assert LeafDepths(n, d) == [d] + [];
    } else {
      LeafDepthsOfChildren(n.children, t, d + 1, Height(n) - 1);
    }
  }

  lemma {:induction false} LeafDepthsOfChildren(cs: seq<Node>, t: nat, d: nat, h: nat)
    requires forall i :: 0 <= i < |cs| ==> Sub(cs[i], t) && Height(cs[i]) == h
    ensures forall e :: e in LeafDepthsOf(cs, d) ==> e == d + h
    decreases cs, 0
  {
    if cs != [] {
      LeafDepthsOfSub(cs[0], t, d);
      assert forall i :: 0 <= i < |cs[1..]| ==> cs[1..][i] == cs[i + 1];
      LeafDepthsOfChildren(cs[1..], t, d, h);
    }
  }

  /** A set of values that all equal one value has at most one element. */
  lemma OneValue(s: seq<nat>, v: nat)
    requires forall e :: e in s ==> e == v
    ensures |DepthSet(s)| <= 1
  {
    var a := DepthSet(s);
    if v in a {
      assert a == {v};
    } else {
      assert a == {};
    }
  }

  /** At most one distinct value means any two values agree. */
  lemma AtMostOneValue(a: set<nat>, x: nat, y: nat)
    requires |a| <= 1 && x in a && y in a
    ensures x == y
  {
    if x != y {
      assert {x, y} <= a;
      assert |{x, y}| == 2;
      SubsetCard({x, y}, a);
    }
  }

  lemma {:induction false} SubsetCard(a: set<nat>, b: set<nat>)
    requires a <= b
    ensures |a| <= |b|
  {
    if a != {} {
      var x :| x in a;
      SubsetCard(a - {x}, b - {x});
    }
  }

  /** A subtree passing the count checks has at least one leaf. */
  lemma {:induction false} CountsGiveLeaf(n: Node, t: nat, isRoot: bool, d: nat)
    requires CheckCounts(n, t, isRoot)
    ensures LeafDepths(n, d) != []
    decreases n
  {
    if !n.leaf {
      CountsGiveLeaf(n.children[0], t, false, d + 1);
      var e := LeafDepths(n.children[0], d + 1)[0];
      LeafDepthsMember(n.children, d + 1, 0, e);
    }
  }

  // ---------------------------------------------------------------------
  // From the invariant to the checks

  /** A well-formed subtree passes the count checks, given its own lower bound. */
  lemma {:induction false} CountsOfSub(n: Node, t: nat, isRoot: bool)
    requires t >= 2 && Sub(n, t)
    requires isRoot ==> n.leaf || |n.keys| >= 1
    requires !isRoot ==> t - 1 <= |n.keys|
    ensures CheckCounts(n, t, isRoot)
    decreases n
  {
    forall j | 0 <= j < |n.children| ensures CheckCounts(n.children[j], t, false) {
      CountsOfSub(n.children[j], t, false);
    }
  }

  /** The separator at i bounds the keys of its two children, in a sorted subtree. */
  lemma SeparatesOfSorted(n: Node, t: nat, i: nat)
    requires Sub(n, t) && !n.leaf && Sorted(InOrder(n)) && i < |n.keys|
    ensures Separates(n, i)
  {
    var k := n.keys[i];
    var c, d := n.children[i], n.children[i + 1];
    Around(n, i);
    SortedParts(Before(n, i), InOrder(c), After(n, i));
    assert k in After(n, i);
    Around(n, i + 1);
    BeforeStep(n, i);
    SortedParts(Before(n, i + 1), InOrder(d), After(n, i + 1));
    assert k in Before(n, i + 1);
    GetAllKeysMultiset(c, t);
    GetAllKeysMultiset(d, t);
  }

  /** Adjacent keys of a sorted internal node are ordered. */
  lemma NodeKeysOfSorted(n: Node, t: nat, i: nat)
    requires Sub(n, t) && !n.leaf && Sorted(InOrder(n)) && i + 1 < |n.keys|
    ensures n.keys[i] <= n.keys[i + 1]
  {
    Around(n, i + 1);
    BeforeStep(n, i);
    AfterStep(n, i + 1);
    assert n.keys[i] in Before(n, i + 1) && n.keys[i + 1] in After(n, i + 1);
    SortedParts(Before(n, i + 1), InOrder(n.children[i + 1]), After(n, i + 1));
  }

  /** A well-formed subtree with strictly increasing in-order keys passes the property check. */
  lemma {:induction false} PropertiesOfSorted(n: Node, t: nat)
    requires Sub(n, t) && Sorted(InOrder(n))
    ensures CheckNodeProperties(n)
    decreases n
  {
    if n.leaf {
      assert CheckKeysSorted(n.keys);
    } else {
      forall i | 0 <= i < |n.keys| - 1 ensures n.keys[i] <= n.keys[i + 1] {
        NodeKeysOfSorted(n, t, i);
      }
      assert CheckKeysSorted(n.keys);
      forall i | 0 <= i < |n.keys| ensures Separates(n, i) {
        SeparatesOfSorted(n, t, i);
      }
      forall j | 0 <= j < |n.children| ensures CheckNodeProperties(n.children[j]) {
        ChildSorted(n, j);
        PropertiesOfSorted(n.children[j], t);
      }
    }
  }

  /**
   * A valid tree passes both executable checks: the class invariant and the
   * structural post-condition.
   */
  lemma ValidTreePassesChecks(root: Node, t: nat)
    requires ValidTree(root, t)
    ensures CheckStructuralPostconditions(root, t)
    ensures CheckAllInvariants(root)
  {
    CountsOfSub(root, t, true);
    PropertiesOfSorted(root, t);
    LeafDepthsOfSub(root, t, 0);
    OneValue(GetAllLeafDepths(root), Height(root));
  }

  // ---------------------------------------------------------------------
  // From the checks to the invariant

  /**
   * Passing the count checks with every leaf at depth D makes a subtree well
   * formed, D - d levels high.
   */
  lemma {:induction false} CountsGiveSub(n: Node, t: nat, isRoot: bool, d: nat, D: nat)
    requires t >= 2 && CheckCounts(n, t, isRoot)
    requires forall e :: e in LeafDepths(n, d) ==> e == D
    ensures Sub(n, t) && d + Height(n) == D
    ensures !isRoot ==> t - 1 <= |n.keys|
    decreases n
  {
    if n.leaf {
      assert d in LeafDepths(n, d);
    } else {
      forall j | 0 <= j < |n.children|
        ensures Sub(n.children[j], t) && d + 1 + Height(n.children[j]) == D
      {
        var c, d' := n.children[j], d + 1;
        forall e | e in LeafDepths(c, d') ensures e == D {
          LeafDepthsMember(n.children, d', j, e);
          assert e in LeafDepths(n, d);
        }
        CountsGiveSub(c, t, false, d', D);
      }
    }
  }

  lemma {:induction false} InterleaveMember(cs: seq<Node>, ks: seq<int>, y: int)
    requires y in Interleave(cs, ks)
    ensures (exists j :: 0 <= j < |cs| && y in InOrder(cs[j])) || (exists j :: 0 <= j < |ks| && y == ks[j])
    decreases cs
  {
    if y !in InOrder(cs[0]) && !(ks != [] && y == ks[0]) {
      if ks == [] {
        InterleaveMember(cs[1..], [], y);
        var j :| 0 <= j < |cs[1..]| && y in InOrder(cs[1..][j]);
        assert cs[1..][j] == cs[j + 1];
      } else {
        InterleaveMember(cs[1..], ks[1..], y);
        if exists j :: 0 <= j < |cs[1..]| && y in InOrder(cs[1..][j]) {
          var j :| 0 <= j < |cs[1..]| && y in InOrder(cs[1..][j]);
          assert cs[1..][j] == cs[j + 1];
        } else {
          var j :| 0 <= j < |ks[1..]| && y == ks[1..][j];
          assert ks[1..][j] == ks[j + 1];
        }
      }
    }
  }

  /** Children and keys ordered as the property check demands interleave to a non-decreasing sequence. */
  lemma {:induction false} InterleaveOrder(cs: seq<Node>, ks: seq<int>)
    requires |cs| == |ks| + 1 && NonDecreasing(ks)
    requires forall j :: 0 <= j < |cs| ==> NonDecreasing(InOrder(cs[j]))
    requires forall i :: 0 <= i < |ks| ==> forall e :: e in InOrder(cs[i]) ==> e < ks[i]
    requires forall i :: 1 <= i < |cs| ==> forall e :: e in InOrder(cs[i]) ==> ks[i - 1] < e
    ensures NonDecreasing(Interleave(cs, ks))
    decreases cs
  {
    if ks == [] {
      assert cs == [cs[0]];
      InterleaveSingle(cs[0]);
    } else {
      var a, k := InOrder(cs[0]), ks[0];
      var cs', ks' := cs[1..], ks[1..];
      var rest := Interleave(cs', ks');
      assert forall j :: 0 <= j < |cs'| ==> cs'[j] == cs[j + 1];
      assert forall j :: 0 <= j < |ks'| ==> ks'[j] == ks[j + 1];
      InterleaveOrder(cs', ks');
      NonDecreasingJoin(a, [k]);
      forall x, y | x in a + [k] && y in rest ensures x <= y {
        assert x <= k;
        InterleaveMember(cs', ks', y);
        if exists j :: 0 <= j < |cs'| && y in InOrder(cs'[j]) {
          var j :| 0 <= j < |cs'| && y in InOrder(cs'[j]);
          assert cs'[j] == cs[j + 1] && ks[j] < y && k <= ks[j];
        } else {
          var j :| 0 <= j < |ks'| && y == ks'[j];
          assert k <= ks[j + 1];
        }
      }
      NonDecreasingJoin(a + [k], rest);
    }
  }

  /** A well-formed subtree passing the property check has non-decreasing in-order keys. */
  lemma {:induction false} PropertiesGiveOrder(n: Node, t: nat)
    requires Sub(n, t) && CheckNodeProperties(n)
    ensures NonDecreasing(InOrder(n))
    decreases n
  {
    if !n.leaf {
      var cs, ks := n.children, n.keys;
      forall j | 0 <= j < |cs| ensures NonDecreasing(InOrder(cs[j])) {
        PropertiesGiveOrder(cs[j], t);
      }
      forall i | 0 <= i < |ks| ensures forall e :: e in InOrder(cs[i]) ==> e < ks[i] {
        assert Separates(n, i);
        GetAllKeysMultiset(cs[i], t);
      }
      forall i | 1 <= i < |cs| ensures forall e :: e in InOrder(cs[i]) ==> ks[i - 1] < e {
        assert Separates(n, i - 1);
        GetAllKeysMultiset(cs[i], t);
      }
      InterleaveOrder(cs, ks);
    }
  }

  /**
   * A tree passing both executable checks is well formed, has a root with a
   * key unless it is a leaf, and has non-decreasing in-order keys; if no key
   * repeats it is a valid tree.
   */
  lemma ChecksGiveValidity(root: Node, t: nat)
    requires t >= 2 && CheckStructuralPostconditions(root, t) && CheckAllInvariants(root)
    ensures Sub(root, t) && (root.leaf || |root.keys| >= 1)
    ensures NonDecreasing(InOrder(root))
    ensures (forall i, j :: 0 <= i < j < |InOrder(root)| ==> InOrder(root)[i] != InOrder(root)[j]) ==> ValidTree(root, t)
  {
    CountsGiveLeaf(root, t, true, 0);
    var s := LeafDepths(root, 0);
    var D := s[0];
    forall e | e in s ensures e == D {
      if root.keys == [] && root.leaf {
        assert s == [0] + LeafDepthsOf([], 1) == [0];
      } else {
        var a := DepthSet(GetAllLeafDepths(root));
        assert e in a && D in a;
        AtMostOneValue(a, e, D);
      }
    }
    CountsGiveSub(root, t, true, 0, D);
    PropertiesGiveOrder(root, t);
  }
}
