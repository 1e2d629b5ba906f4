/**
 * The abstract view of a B-tree used by every proof: the in-order key
 * sequence of a subtree, its height, and the structural invariant of a
 * subtree of minimum degree t.
 */
module BTreeShape {
  import opened BTreeNodes
  import opened KeySequences

  /** Keys of the subtree in left-to-right (in-order) order. */
  function InOrder(n: Node): seq<int>
  {
    if n.leaf then n.keys else Interleave(n.children, n.keys)
  }

  /** children[0], keys[0], children[1], keys[1], ... flattened. */
  function Interleave(cs: seq<Node>, ks: seq<int>): seq<int>
  {
    if cs == [] then []
    else if ks == [] then InOrder(cs[0]) + Interleave(cs[1..], [])
    else InOrder(cs[0]) + [ks[0]] + Interleave(cs[1..], ks[1..])
  }

  /** Number of edges from the node down its leftmost path to a leaf
      (a node marked internal but without children counts as a leaf here). */
  function Height(n: Node): nat
  {
    if n.leaf || n.children == [] then 0 else 1 + Height(n.children[0])
  }

  /** An internal node with one more child than keys. */
  predicate InternalShape(x: Node)
  {
    !x.leaf && |x.children| == |x.keys| + 1
  }

  /**
   * The subtree rooted at n is a well-formed part of a B-tree of minimum
   * degree t: at most 2t-1 keys per node, leaves without children, internal
   * nodes with one more child than keys, every proper descendant holding at
   * least t-1 keys, and all children one level below their parent. Only n's
   * own lower bound on keys is left open (it depends on n being the root).
   */
  ghost predicate Sub(n: Node, t: nat)
  {
    && |n.keys| <= 2 * t - 1
    && (n.leaf ==> n.children == [])
    && (!n.leaf ==>
          && |n.children| == |n.keys| + 1
          && forall i :: 0 <= i < |n.children| ==>
               && Sub(n.children[i], t)
               && t - 1 <= |n.children[i].keys|
               && Height(n.children[i]) + 1 == Height(n))
  }

  /** A subtree that may hang below a parent: Sub plus the t-1 lower bound. */
  ghost predicate SubNonRoot(n: Node, t: nat)
  {
    Sub(n, t) && t - 1 <= |n.keys|
  }

  /**
   * The whole-tree invariant: minimum degree at least 2, every node within
   * its bounds, all leaves at one depth, the in-order key sequence strictly
   * increasing, and a root that has at least one key unless it is a leaf.
   */
  ghost predicate ValidTree(root: Node, t: nat)
  {
    && t >= 2
    && Sub(root, t)
    && Sorted(InOrder(root))
    && (root.leaf || |root.keys| >= 1)
  }

  /** The node with child j replaced by c. */
  function SetChild(x: Node, j: nat, c: Node): (r: Node)
    requires j < |x.children|
  {
    x.(children := x.children[j := c])
  }

  /** In-order keys left of child i (ending with keys[i-1] when i > 0). */
  function Before(x: Node, i: nat): seq<int>
    requires i <= |x.children| && i <= |x.keys|
  {
    Interleave(x.children[..i], x.keys[..i])
  }

  /** In-order keys right of child i (starting with keys[i] when it exists). */
  function After(x: Node, i: nat): seq<int>
    requires i < |x.children|
  {
    if i < |x.keys| then [x.keys[i]] + Interleave(x.children[i + 1..], x.keys[i + 1..]) else []
  }

  lemma {:induction false} InterleaveAppend(cs1: seq<Node>, ks1: seq<int>, cs2: seq<Node>, ks2: seq<int>)
    requires |cs1| == |ks1|
    ensures Interleave(cs1 + cs2, ks1 + ks2) == Interleave(cs1, ks1) + Interleave(cs2, ks2)
    decreases |cs1|
  {
    if cs1 == [] {
      assert cs1 + cs2 == cs2 && ks1 + ks2 == ks2;
    } else {
      assert (cs1 + cs2)[0] == cs1[0] && (cs1 + cs2)[1..] == cs1[1..] + cs2;
      assert (ks1 + ks2)[0] == ks1[0] && (ks1 + ks2)[1..] == ks1[1..] + ks2;
      InterleaveAppend(cs1[1..], ks1[1..], cs2, ks2);
    }
  }

  lemma InterleaveSingle(c: Node)
    ensures Interleave([c], []) == InOrder(c)
  {
    assert [c][1..] == [];
  }

  lemma InterleavePair(c: Node, k: int)
    ensures Interleave([c], [k]) == InOrder(c) + [k]
  {
    assert [c][1..] == [] && [k][1..] == [];
  }

  /** The last child closes an interleaving with one more child than keys. */
  lemma {:induction false} InterleaveLast(cs: seq<Node>, ks: seq<int>)
    requires |cs| == |ks| + 1
    ensures Interleave(cs, ks) == Interleave(cs[..|ks|], ks) + InOrder(cs[|ks|])
  {
    assert cs == cs[..|ks|] + [cs[|ks|]] && ks == ks + [];
    InterleaveAppend(cs[..|ks|], ks, [cs[|ks|]], []);
    InterleaveSingle(cs[|ks|]);
  }

  /** An interleaving with one more child than keys, cut at key m into the part before it and the part after. */
  lemma {:induction false} InterleaveAt(cs: seq<Node>, ks: seq<int>, m: nat)
    requires |cs| == |ks| + 1 && m < |ks|
    ensures Interleave(cs, ks) == Interleave(cs[..m + 1], ks[..m]) + [ks[m]] + Interleave(cs[m + 1..], ks[m + 1..])
  {
    var cs2, ks2 := cs[m..], ks[m..];
    assert cs == cs[..m] + cs2 && ks == ks[..m] + ks2;
    InterleaveAppend(cs[..m], ks[..m], cs2, ks2);
    assert cs2[0] == cs[m] && ks2[0] == ks[m] && cs2[1..] == cs[m + 1..] && ks2[1..] == ks[m + 1..];
    var front := cs[..m + 1];
    assert front[..m] == cs[..m] && front[m] == cs[m];
    InterleaveLast(front, ks[..m]);
  }

  /** Appending a key after the last child of an interleaving appends it to the in-order keys. */
  lemma {:induction false} InterleaveCloses(cs: seq<Node>, ks: seq<int>, k: int)
    requires |cs| == |ks| + 1
    ensures Interleave(cs, ks + [k]) == Interleave(cs, ks) + [k]
  {
    var n := |ks|;
    assert cs == cs[..n] + [cs[n]];
    InterleaveAppend(cs[..n], ks, [cs[n]], [k]);
    InterleavePair(cs[n], k);
    InterleaveLast(cs, ks);
  }

  /** An internal node assembled from well-formed non-root children of one height h is well formed, of height h+1. */
  lemma {:induction false} SubIntro(r: Node, t: nat, h: nat)
    requires InternalShape(r) && |r.keys| <= 2 * t - 1
    requires forall j :: 0 <= j < |r.children| ==> SubNonRoot(r.children[j], t) && Height(r.children[j]) == h
    ensures Sub(r, t) && Height(r) == h + 1
  {
    assert SubNonRoot(r.children[0], t);
  }

  /** The in-order sequence of an internal node, cut around child i. */
  lemma {:induction false} Around(x: Node, i: nat)
    requires InternalShape(x) && i < |x.children|
    ensures InOrder(x) == Before(x, i) + InOrder(x.children[i]) + After(x, i)
  {
    var cs, ks := x.children, x.keys;
    assert cs == cs[..i] + cs[i..] && ks == ks[..i] + ks[i..];
    InterleaveAppend(cs[..i], ks[..i], cs[i..], ks[i..]);
    assert cs[i..][0] == cs[i];
    if i < |ks| {
      assert ks[i..][0] == ks[i] && cs[i..][1..] == cs[i + 1..] && ks[i..][1..] == ks[i + 1..];
    } else {
      assert ks[i..] == [] && cs[i..][1..] == [];
    }
  }

  /** In-order keys left of child i+1 are those left of child i, child i, and keys[i]. */
  lemma {:induction false} BeforeStep(x: Node, i: nat)
    requires i < |x.keys| && i < |x.children|
    ensures Before(x, i + 1) == Before(x, i) + InOrder(x.children[i]) + [x.keys[i]]
  {
    assert x.children[..i + 1] == x.children[..i] + [x.children[i]];
    assert x.keys[..i + 1] == x.keys[..i] + [x.keys[i]];
    InterleaveAppend(x.children[..i], x.keys[..i], [x.children[i]], [x.keys[i]]);
    InterleavePair(x.children[i], x.keys[i]);
  }

  /** In-order keys right of child i are keys[i], child i+1, and what lies right of child i+1. */
  lemma {:induction false} AfterStep(x: Node, i: nat)
    requires InternalShape(x) && i < |x.keys|
    ensures After(x, i) == [x.keys[i]] + InOrder(x.children[i + 1]) + After(x, i + 1)
  {
    var cs, ks := x.children[i + 1..], x.keys[i + 1..];
    assert cs[0] == x.children[i + 1];
    if i + 1 < |x.keys| {
      assert ks[0] == x.keys[i + 1] && cs[1..] == x.children[i + 2..] && ks[1..] == x.keys[i + 2..];
    } else {
      assert ks == [] && cs == [cs[0]];
      InterleaveSingle(cs[0]);
    }
  }

  lemma {:induction false} InOrderSetChild(x: Node, j: nat, c: Node)
    requires InternalShape(x) && j < |x.children|
    ensures InOrder(SetChild(x, j, c)) == Before(x, j) + InOrder(c) + After(x, j)
  {
    var y := SetChild(x, j, c);
    Around(y, j);
    assert y.children[..j] == x.children[..j];
    assert y.children[j + 1..] == x.children[j + 1..];
  }

  /** Replacing a child by a subtree of the same height that satisfies the non-root
      bounds keeps the parent well formed and its height unchanged. */
  lemma {:induction false} SubSetChild(x: Node, j: nat, c: Node, t: nat)
    requires Sub(x, t) && !x.leaf && j < |x.children|
    requires SubNonRoot(c, t) && Height(c) == Height(x.children[j])
    ensures Sub(SetChild(x, j, c), t) && Height(SetChild(x, j, c)) == Height(x)
  {
    var y := SetChild(x, j, c);
    assert Height(y) == Height(x) by {
      assert Height(y.children[0]) == Height(x.children[0]);
    }
    forall i | 0 <= i < |y.children|
      ensures Sub(y.children[i], t) && t - 1 <= |y.children[i].keys| && Height(y.children[i]) + 1 == Height(y)
    {
      if i != j { assert y.children[i] == x.children[i]; }
    }
  }

  lemma {:induction false} KeyInInOrder(x: Node, m: nat)
    requires x.leaf || InternalShape(x)
    requires m < |x.keys|
    ensures x.keys[m] in InOrder(x)
  {
    if !x.leaf {
      Around(x, m);
      assert After(x, m)[0] == x.keys[m];
    }
  }

  /** A child's in-order sequence is a sorted piece of its parent's. */
  lemma {:induction false} ChildSorted(x: Node, i: nat)
    requires InternalShape(x) && i < |x.children| && Sorted(InOrder(x))
    ensures Sorted(InOrder(x.children[i]))
  {
    Around(x, i);
    SortedParts(Before(x, i), InOrder(x.children[i]), After(x, i));
  }

  /** Separator bounds on k around child i bound every key left and right of that child. */
  lemma {:induction false} SeparatorBounds(x: Node, i: nat, k: int)
    requires InternalShape(x) && i < |x.children| && Sorted(InOrder(x))
    requires i > 0 ==> x.keys[i - 1] < k
    requires i < |x.keys| ==> k < x.keys[i]
    ensures forall e :: e in Before(x, i) ==> e < k
    ensures forall e :: e in After(x, i) ==> k < e
  {
    Around(x, i);
    if i > 0 {
      BeforeStep(x, i - 1);
      var a := Before(x, i - 1) + InOrder(x.children[i - 1]);
      var sep := x.keys[i - 1];
      assert InOrder(x) == a + [sep] + (InOrder(x.children[i]) + After(x, i));
      SortedParts(a, [sep], InOrder(x.children[i]) + After(x, i));
      assert Before(x, i) == a + [sep];
      forall e | e in Before(x, i) ensures e < k {
        if e != sep { assert e in a; assert sep in [sep]; }
      }
    }
    if i < |x.keys| {
      var sep := x.keys[i];
      var rest := Interleave(x.children[i + 1..], x.keys[i + 1..]);
      assert InOrder(x) == (Before(x, i) + InOrder(x.children[i])) + [sep] + rest;
      SortedParts(Before(x, i) + InOrder(x.children[i]), [sep], rest);
      forall e | e in After(x, i) ensures k < e {
        if e != sep { assert e in rest; assert sep in [sep]; }
      }
    }
  }

  /** The height loop: step to the first child until a leaf is reached, counting the steps. */
  method WalkHeight(x: Node, t: nat) returns (h: nat)
    requires Sub(x, t)
    ensures h == Height(x)
  {
    h := 0;
    var node := x;
    while !node.leaf
      invariant Sub(node, t) && h + Height(node) == Height(x)
      decreases Height(node)
    {
      node := node.children[0];
      h := h + 1;
    }
  }

  /** Two subtrees of equal height are both leaves or both internal. */
  lemma SameHeightSameLeaf(a: Node, b: Node, t: nat)
    requires Sub(a, t) && Sub(b, t) && Height(a) == Height(b)
    ensures a.leaf == b.leaf
  {
  }
}
