/**
 * Single-pass deletion: before the descent enters a child with only t-1
 * keys, that child is filled (borrow or merge), so the key can always be
 * removed on the way down. A key found in an internal node is replaced by
 * its predecessor or successor, or its two children are merged around it.
 */
module BTreeDelete {
  import opened BTreeNodes
  import opened KeySequences
  import opened BTreeShape
  import opened BTreeSearch
  import opened BTreeMoves

  /** The largest key of a subtree: follow the last children down to a leaf and take its last key. */
  function GetPredecessor(x: Node, t: nat): (r: int)
    requires t >= 2 && Sub(x, t) && |x.keys| >= 1
    ensures InOrder(x) != [] && r == InOrder(x)[|InOrder(x)| - 1]
  {
    if x.leaf then x.keys[|x.keys| - 1]
    else
      var c := x.children[|x.children| - 1];
      assert Sub(c, t);
      InterleaveLast(x.children, x.keys);
      GetPredecessor(c, t)
  }

  /** The smallest key of a subtree: follow the first children down to a leaf and take its first key. */
  function GetSuccessor(x: Node, t: nat): (r: int)
    requires t >= 2 && Sub(x, t) && |x.keys| >= 1
    ensures InOrder(x) != [] && r == InOrder(x)[0]
  {
    if x.leaf then x.keys[0]
    else
      var c := x.children[0];
      assert Sub(c, t);
      GetSuccessor(c, t)
  }

  /** The predecessor is the maximum of a sorted subtree. */
  lemma PredecessorIsMax(x: Node, t: nat)
    requires t >= 2 && Sub(x, t) && |x.keys| >= 1 && Sorted(InOrder(x))
    ensures GetPredecessor(x, t) in InOrder(x)
    ensures forall e :: e in InOrder(x) ==> e <= GetPredecessor(x, t)
  {
    var s := InOrder(x);
    forall e | e in s ensures e <= GetPredecessor(x, t) {
      var j :| 0 <= j < |s| && s[j] == e;
      if j < |s| - 1 { assert s[j] < s[|s| - 1]; }
    }
  }

  /** The successor is the minimum of a sorted subtree. */
  lemma SuccessorIsMin(x: Node, t: nat)
    requires t >= 2 && Sub(x, t) && |x.keys| >= 1 && Sorted(InOrder(x))
    ensures GetSuccessor(x, t) in InOrder(x)
    ensures forall e :: e in InOrder(x) ==> GetSuccessor(x, t) <= e
  {
    var s := InOrder(x);
    forall e | e in s ensures GetSuccessor(x, t) <= e {
      var j :| 0 <= j < |s| && s[j] == e;
      if j > 0 { assert s[0] < s[j]; }
    }
  }

  /** The predecessor walk as a loop: down the last children, then the leaf's last key. */
  method FindPredecessor(x: Node, t: nat) returns (r: int)
    requires t >= 2 && Sub(x, t) && |x.keys| >= 1
    ensures r == GetPredecessor(x, t)
  {
    var n := x;
    while !n.leaf
      invariant Sub(n, t) && |n.keys| >= 1
      invariant GetPredecessor(n, t) == GetPredecessor(x, t)
      decreases Height(n)
    {
      n := n.children[|n.children| - 1];
    }
    r := n.keys[|n.keys| - 1];
  }

  /** The successor walk as a loop: down the first children, then the leaf's first key. */
  method FindSuccessor(x: Node, t: nat) returns (r: int)
    requires t >= 2 && Sub(x, t) && |x.keys| >= 1
    ensures r == GetSuccessor(x, t)
  {
    var n := x;
    while !n.leaf
      invariant Sub(n, t) && |n.keys| >= 1
      invariant GetSuccessor(n, t) == GetSuccessor(x, t)
      decreases Height(n)
    {
      n := n.children[0];
    }
    r := n.keys[0];
  }

  /**
   * The index re-adjust after the fill: step to the left neighbour when the
   * node now has fewer than i keys. With guardLast (b_tree.py) this also
   * requires that i was the last child; without it (trabalho.py) it does not.
   */
  function DescentIndex(i: nat, isLast: bool, keysNow: nat, guardLast: bool): (j: nat)
    ensures j == i || (j == i - 1 && i > keysNow)
  {
    if (if guardLast then isLast && i > keysNow else i > keysNow) then i - 1 else i
  }

  /**
   * The node after the fill step before descending into child i (it is filled
   * only when it holds fewer than t keys).
   */
  function Filled(x: Node, i: nat, t: nat): Node
    requires t >= 2 && Sub(x, t) && !x.leaf && |x.keys| >= 1 && i < |x.children|
  {
    if |x.children[i].keys| < t then FillChild(x, i, t) else x
  }

  /**
   * The fill step keeps the node well formed and as high, loses at most one
   * key, and under either index guard the descent continues at child i, or at
   * child i-1 exactly when the fill merged the last child into its left
   * neighbour; that child has at least t keys.
   */
  lemma {:induction false} FillStep(x: Node, i: nat, t: nat, guardLast: bool)
    requires t >= 2 && Sub(x, t) && !x.leaf && |x.keys| >= 1 && i < |x.children|
    ensures
      var x1 := Filled(x, i, t);
      var j := DescentIndex(i, i == |x.children| - 1, |x1.keys|, guardLast);
      && Sub(x1, t) && Height(x1) == Height(x) && !x1.leaf && |x1.keys| >= |x.keys| - 1
      && j == (if |x.children[i].keys| < t && FillMergesLeft(x, i, t) then i - 1 else i)
      && j < |x1.children| && j <= |x1.keys| && |x1.children[j].keys| >= t
  {
    if |x.children[i].keys| < t {
      FillChildSub(x, i, t);
    } else {
      assert Sub(x.children[i], t);
    }
  }

  /**
   * Delete k from the subtree of x. x holds at least one key unless it is a
   * leaf (for every node below the root the descent ensures at least t).
   * A key absent from the subtree leaves it unchanged.
   */
  function DeleteRec(x: Node, k: int, t: nat, guardLast: bool): Node
    requires t >= 2 && Sub(x, t) && (x.leaf || |x.keys| >= 1)
    decreases Height(x), 1
  {
    var i := FindIndex(x.keys, k);
    if i < |x.keys| && x.keys[i] == k then
      if x.leaf then x.(keys := x.keys[..i] + x.keys[i + 1..])
      else DeleteFromInternal(x, i, t, guardLast)
    else if x.leaf then x
    else
      var x1 := Filled(x, i, t);
      var j := DescentIndex(i, i == |x.children| - 1, |x1.keys|, guardLast);
      FillStep(x, i, t, guardLast);
      SetChild(x1, j, DeleteRec(x1.children[j], k, t, guardLast))
  }

  /**
   * Delete keys[i] from an internal node: replace it by its predecessor when
   * children[i] has at least t keys, else by its successor when children[i+1]
   * has at least t keys, and delete that key below; otherwise merge the two
   * children around it and delete it from the merged child.
   */
  function DeleteFromInternal(x: Node, i: nat, t: nat, guardLast: bool): Node
    requires t >= 2 && Sub(x, t) && !x.leaf && i < |x.keys|
    decreases Height(x), 0
  {
    var k := x.keys[i];
    assert Sub(x.children[i], t) && Sub(x.children[i + 1], t);
    if |x.children[i].keys| >= t then
      var pred := GetPredecessor(x.children[i], t);
      var x1 := x.(keys := x.keys[i := pred]);
      SetChild(x1, i, DeleteRec(x1.children[i], pred, t, guardLast))
    else if |x.children[i + 1].keys| >= t then
      var succ := GetSuccessor(x.children[i + 1], t);
      var x1 := x.(keys := x.keys[i := succ]);
      SetChild(x1, i + 1, DeleteRec(x1.children[i + 1], succ, t, guardLast))
    else
      MergeSub(x, i, t);
      var x1 := MergeChildren(x, i);
      assert Sub(x1.children[i], t);
      SetChild(x1, i, DeleteRec(x1.children[i], k, t, guardLast))
  }

  // ----- structure -----

  /** Deletion keeps the subtree well formed, as high, of the same kind, and loses at most one top-node key. */
  lemma {:induction false} DeleteRecSub(x: Node, k: int, t: nat, guardLast: bool)
    requires t >= 2 && Sub(x, t) && (x.leaf || |x.keys| >= 1)
    ensures
      var r := DeleteRec(x, k, t, guardLast);
      Sub(r, t) && Height(r) == Height(x) && r.leaf == x.leaf && |r.keys| >= |x.keys| - 1
    decreases Height(x), 2
  {
    var i := FindIndex(x.keys, k);
    if i < |x.keys| && x.keys[i] == k {
      if !x.leaf {
        DeleteFromInternalSub(x, i, t, guardLast);
      }
    } else if !x.leaf {
      var x1 := Filled(x, i, t);
      var j := DescentIndex(i, i == |x.children| - 1, |x1.keys|, guardLast);
      FillStep(x, i, t, guardLast);
      var c := x1.children[j];
      assert Sub(c, t);
      DeleteRecSub(c, k, t, guardLast);
      SubSetChild(x1, j, DeleteRec(c, k, t, guardLast), t);
    }
  }

  lemma {:induction false} DeleteFromInternalSub(x: Node, i: nat, t: nat, guardLast: bool)
    requires t >= 2 && Sub(x, t) && !x.leaf && i < |x.keys|
    ensures
      var r := DeleteFromInternal(x, i, t, guardLast);
      Sub(r, t) && Height(r) == Height(x) && !r.leaf && |r.keys| >= |x.keys| - 1
    decreases Height(x), 1
  {
    var l, u := x.children[i], x.children[i + 1];
    assert Sub(l, t) && Sub(u, t);
    var r := DeleteFromInternal(x, i, t, guardLast);
    if |l.keys| >= t {
      var pred := GetPredecessor(l, t);
      ReplaceDeleteSub(x, i, i, pred, t, guardLast);
      assert r == SetChild(x.(keys := x.keys[i := pred]), i, DeleteRec(l, pred, t, guardLast));
    } else if |u.keys| >= t {
      var succ := GetSuccessor(u, t);
      ReplaceDeleteSub(x, i, i + 1, succ, t, guardLast);
      assert r == SetChild(x.(keys := x.keys[i := succ]), i + 1, DeleteRec(u, succ, t, guardLast));
    } else {
      MergeDeleteSub(x, i, t, guardLast);
    }
  }

  /** Replacing separator i by v and deleting v below child j (which has at least t keys) keeps x well formed. */
  lemma {:induction false} ReplaceDeleteSub(x: Node, i: nat, j: nat, v: int, t: nat, guardLast: bool)
    requires t >= 2 && Sub(x, t) && !x.leaf && i < |x.keys| && j < |x.children| && |x.children[j].keys| >= t
    ensures Sub(x.children[j], t)
    ensures
      var x1 := x.(keys := x.keys[i := v]);
      var r := SetChild(x1, j, DeleteRec(x.children[j], v, t, guardLast));
      Sub(r, t) && Height(r) == Height(x) && !r.leaf && |r.keys| == |x.keys|
    decreases Height(x), 0
  {
    var x1 := x.(keys := x.keys[i := v]);
    assert Sub(x1, t) && Height(x1) == Height(x);
    var c := x.children[j];
    assert Sub(c, t) && x1.children[j] == c;
    DeleteRecSub(c, v, t, guardLast);
    SubSetChild(x1, j, DeleteRec(c, v, t, guardLast), t);
  }

  /** Merging children i and i+1 around separator i and deleting it from the merged child keeps x well formed. */
  lemma {:induction false} MergeDeleteSub(x: Node, i: nat, t: nat, guardLast: bool)
    requires t >= 2 && Sub(x, t) && !x.leaf && i < |x.keys|
    requires |x.children[i].keys| < t && |x.children[i + 1].keys| < t
    ensures Sub(MergeChildren(x, i).children[i], t) && |MergeChildren(x, i).children[i].keys| == 2 * t - 1
    ensures
      var x1 := MergeChildren(x, i);
      var r := SetChild(x1, i, DeleteRec(x1.children[i], x.keys[i], t, guardLast));
      Sub(r, t) && Height(r) == Height(x) && !r.leaf && |r.keys| >= |x.keys| - 1
    decreases Height(x), 0
  {
    MergeSub(x, i, t);
    var x1 := MergeChildren(x, i);
    assert Sub(x1.children[i], t);
    DeleteRecSub(x1.children[i], x.keys[i], t, guardLast);
    SubSetChild(x1, i, DeleteRec(x1.children[i], x.keys[i], t, guardLast), t);
  }

  // ----- in-order keys -----

  /** Deleting below child j, where no other part of x holds k, deletes k from x's in-order keys. */
  lemma {:induction false} RemoveInChild(x: Node, j: nat, c: Node, k: int)
    requires InternalShape(x) && j < |x.children|
    requires k !in Before(x, j) && k !in After(x, j)
    requires InOrder(c) == Remove(InOrder(x.children[j]), k)
    ensures InOrder(SetChild(x, j, c)) == Remove(InOrder(x), k)
  {
    var b, m, a := Before(x, j), InOrder(x.children[j]), After(x, j);
    Around(x, j);
    InOrderSetChild(x, j, c);
    RemoveAppend(b + m, a, k);
    RemoveAppend(b, m, k);
    RemoveAbsent(b, k);
    RemoveAbsent(a, k);
  }

  /** Deletion removes k, and only k, from the in-order keys of a sorted subtree. */
  lemma {:induction false} DeleteRecInOrder(x: Node, k: int, t: nat, guardLast: bool)
    requires t >= 2 && Sub(x, t) && (x.leaf || |x.keys| >= 1) && Sorted(InOrder(x))
    ensures InOrder(DeleteRec(x, k, t, guardLast)) == Remove(InOrder(x), k)
    decreases Height(x), 2
  {
    var i := FindIndex(x.keys, k);
    var ks := x.keys;
    if i < |ks| && ks[i] == k {
      if x.leaf {
        assert ks == ks[..i] + [k] + ks[i + 1..];
        SortedSplitAt(ks[..i], k, ks[i + 1..]);
      } else {
        DeleteFromInternalInOrder(x, i, t, guardLast);
      }
    } else if x.leaf {
      forall j | 0 <= j < |ks| ensures ks[j] != k {
        if j > i { assert ks[i] < ks[j]; }
      }
      RemoveAbsent(ks, k);
    } else {
      DescentInOrder(x, i, k, t, guardLast);
    }
  }

  /** The descent case of DeleteRecInOrder: k is not in x, so it is deleted from the child the descent enters. */
  lemma {:induction false} DescentInOrder(x: Node, i: nat, k: int, t: nat, guardLast: bool)
    requires t >= 2 && Sub(x, t) && !x.leaf && |x.keys| >= 1 && Sorted(InOrder(x))
    requires i == FindIndex(x.keys, k) && !(i < |x.keys| && x.keys[i] == k)
    ensures
      var x1 := Filled(x, i, t);
      var j := DescentIndex(i, i == |x.children| - 1, |x1.keys|, guardLast);
      j < |x1.children| && Sub(x1.children[j], t) && |x1.children[j].keys| >= 1
    ensures
      var x1 := Filled(x, i, t);
      var j := DescentIndex(i, i == |x.children| - 1, |x1.keys|, guardLast);
      InOrder(SetChild(x1, j, DeleteRec(x1.children[j], k, t, guardLast))) == Remove(InOrder(x), k)
    decreases Height(x), 0
  {
    var x1 := Filled(x, i, t);
    var j := DescentIndex(i, i == |x.children| - 1, |x1.keys|, guardLast);
    FillStep(x, i, t, guardLast);
    SeparatorBounds(x, i, k);
    assert k !in Before(x, i) && k !in After(x, i);
    if |x.children[i].keys| < t {
      FillChildInOrder(x, i, t);
    }
    assert InOrder(x1) == InOrder(x);
    assert k !in Before(x1, j) && k !in After(x1, j);
    var c := x1.children[j];
    assert Sub(c, t);
    ChildSorted(x1, j);
    DeleteRecInOrder(c, k, t, guardLast);
    RemoveInChild(x1, j, DeleteRec(c, k, t, guardLast), k);
  }

  /** Deleting keys[i] from an internal node removes exactly that key from the in-order keys. */
  lemma {:induction false} DeleteFromInternalInOrder(x: Node, i: nat, t: nat, guardLast: bool)
    requires t >= 2 && Sub(x, t) && !x.leaf && i < |x.keys| && Sorted(InOrder(x))
    ensures InOrder(DeleteFromInternal(x, i, t, guardLast)) == Remove(InOrder(x), x.keys[i])
    decreases Height(x), 1
  {
    assert Sub(x.children[i], t) && Sub(x.children[i + 1], t);
    if |x.children[i].keys| >= t {
      PredecessorCase(x, i, t, guardLast);
    } else if |x.children[i + 1].keys| >= t {
      SuccessorCase(x, i, t, guardLast);
    } else {
      MergeCase(x, i, t, guardLast);
    }
  }

  /** The in-order keys of an internal node seen around separator i: left part, both children, right part. */
  lemma {:induction false} SeparatorView(x: Node, i: nat)
    requires InternalShape(x) && i < |x.keys|
    ensures InOrder(x) == Before(x, i) + InOrder(x.children[i]) + [x.keys[i]] + InOrder(x.children[i + 1]) + After(x, i + 1)
  {
    Around(x, i);
    AfterStep(x, i);
  }

  /** Replacing separator i by v and child j (i or i+1) by c changes only those pieces of the in-order keys. */
  lemma {:induction false} ReplaceSeparator(x: Node, i: nat, v: int, j: nat, c: Node)
    requires InternalShape(x) && i < |x.keys| && (j == i || j == i + 1)
    ensures
      var y := SetChild(x.(keys := x.keys[i := v]), j, c);
      var l := if j == i then InOrder(c) else InOrder(x.children[i]);
      var u := if j == i + 1 then InOrder(c) else InOrder(x.children[i + 1]);
      InOrder(y) == Before(x, i) + l + [v] + u + After(x, i + 1)
  {
    var y := SetChild(x.(keys := x.keys[i := v]), j, c);
    SeparatorView(y, i);
    assert y.children[..i] == x.children[..i] && y.keys[..i] == x.keys[..i];
    assert Before(y, i) == Before(x, i);
    assert y.children[i + 2..] == x.children[i + 2..] && y.keys[i + 1..] == x.keys[i + 1..];
    assert After(y, i + 1) == After(x, i + 1);
  }

  lemma {:induction false} PredecessorCase(x: Node, i: nat, t: nat, guardLast: bool)
    requires t >= 2 && Sub(x, t) && !x.leaf && i < |x.keys| && Sorted(InOrder(x))
    requires |x.children[i].keys| >= t
    ensures Sub(x.children[i], t)
    ensures
      var pred := GetPredecessor(x.children[i], t);
      var x1 := x.(keys := x.keys[i := pred]);
      InOrder(SetChild(x1, i, DeleteRec(x1.children[i], pred, t, guardLast))) == Remove(InOrder(x), x.keys[i])
    decreases Height(x), 0
  {
    var k, c := x.keys[i], x.children[i];
    assert Sub(c, t);
    var pred := GetPredecessor(c, t);
    ChildSorted(x, i);
    PredecessorRemoved(c, t);
    DeleteRecInOrder(c, pred, t, guardLast);
    var r' := DeleteRec(c, pred, t, guardLast);
    ReplaceSeparator(x, i, pred, i, r');
    SeparatorView(x, i);
    PredecessorAlgebra(Before(x, i), InOrder(c), k, InOrder(x.children[i + 1]), After(x, i + 1), pred);
  }

  lemma PredecessorAlgebra(b: seq<int>, s: seq<int>, k: int, u: seq<int>, a: seq<int>, p: int)
    requires Sorted(b + s + [k] + u + a)
    requires s == Remove(s, p) + [p]
    ensures Remove(b + s + [k] + u + a, k) == b + Remove(s, p) + [p] + u + a
  {
    RemoveSeparator(b, s, k, u, a);
  }

  /** A subtree's in-order keys are the keys without its predecessor, then the predecessor. */
  lemma PredecessorRemoved(c: Node, t: nat)
    requires t >= 2 && Sub(c, t) && |c.keys| >= 1 && Sorted(InOrder(c))
    ensures InOrder(c) == Remove(InOrder(c), GetPredecessor(c, t)) + [GetPredecessor(c, t)]
  {
    var p := GetPredecessor(c, t);
    RemoveLast(InOrder(c));
  }

  lemma {:induction false} SuccessorCase(x: Node, i: nat, t: nat, guardLast: bool)
    requires t >= 2 && Sub(x, t) && !x.leaf && i < |x.keys| && Sorted(InOrder(x))
    requires |x.children[i].keys| < t && |x.children[i + 1].keys| >= t
    ensures Sub(x.children[i + 1], t)
    ensures
      var succ := GetSuccessor(x.children[i + 1], t);
      var x1 := x.(keys := x.keys[i := succ]);
      InOrder(SetChild(x1, i + 1, DeleteRec(x1.children[i + 1], succ, t, guardLast))) == Remove(InOrder(x), x.keys[i])
    decreases Height(x), 0
  {
    var k, c := x.keys[i], x.children[i + 1];
    assert Sub(c, t);
    var succ := GetSuccessor(c, t);
    ChildSorted(x, i + 1);
    SuccessorRemoved(c, t);
    DeleteRecInOrder(c, succ, t, guardLast);
    var r' := DeleteRec(c, succ, t, guardLast);
    ReplaceSeparator(x, i, succ, i + 1, r');
    SeparatorView(x, i);
    SuccessorAlgebra(Before(x, i), InOrder(x.children[i]), k, InOrder(c), After(x, i + 1), succ);
  }

  lemma SuccessorAlgebra(b: seq<int>, l: seq<int>, k: int, s: seq<int>, a: seq<int>, q: int)
    requires Sorted(b + l + [k] + s + a)
    requires s == [q] + Remove(s, q)
    ensures Remove(b + l + [k] + s + a, k) == b + l + [q] + Remove(s, q) + a
  {
    RemoveSeparator(b, l, k, s, a);
  }

  /** A subtree's in-order keys are its successor, then the keys without it. */
  lemma SuccessorRemoved(c: Node, t: nat)
    requires t >= 2 && Sub(c, t) && |c.keys| >= 1 && Sorted(InOrder(c))
    ensures InOrder(c) == [GetSuccessor(c, t)] + Remove(InOrder(c), GetSuccessor(c, t))
  {
    KeyInInOrder(c, 0);
    RemoveFirst(InOrder(c));
  }

  lemma {:induction false} MergeCase(x: Node, i: nat, t: nat, guardLast: bool)
    requires t >= 2 && Sub(x, t) && !x.leaf && i < |x.keys| && Sorted(InOrder(x))
    requires |x.children[i].keys| < t && |x.children[i + 1].keys| < t
    ensures Sub(MergeChildren(x, i), t) && Sub(MergeChildren(x, i).children[i], t)
    ensures |MergeChildren(x, i).children[i].keys| >= 1
    ensures
      var x1 := MergeChildren(x, i);
      InOrder(SetChild(x1, i, DeleteRec(x1.children[i], x.keys[i], t, guardLast))) == Remove(InOrder(x), x.keys[i])
    decreases Height(x), 0
  {
    var k := x.keys[i];
    MergeSub(x, i, t);
    var x1 := MergeChildren(x, i);
    assert Sub(x1.children[i], t);
    MergeInOrder(x, i);
    var b, a := Before(x, i), After(x1, i);
    var l, u := InOrder(x.children[i]), InOrder(x.children[i + 1]);
    Around(x, i);
    assert InOrder(x) == (b + l) + [k] + (u + a);
    SortedSplitAt(b + l, k, u + a);
    assert k !in b && k !in a;
    var c := x1.children[i];
    ChildSorted(x1, i);
    DeleteRecInOrder(c, k, t, guardLast);
    RemoveInChild(x1, i, DeleteRec(c, k, t, guardLast), k);
  }

  // ----- the two index guards -----

  /** The b_tree.py guard (last child and fewer than i keys) and the trabalho.py guard (fewer than i keys) delete alike. */
  lemma {:induction false} GuardsAgree(x: Node, k: int, t: nat)
    requires t >= 2 && Sub(x, t) && (x.leaf || |x.keys| >= 1)
    ensures DeleteRec(x, k, t, true) == DeleteRec(x, k, t, false)
    decreases Height(x), 1
  {
    var i := FindIndex(x.keys, k);
    if i < |x.keys| && x.keys[i] == k {
      if !x.leaf {
        GuardsAgreeInternal(x, i, t);
      }
    } else if !x.leaf {
      var x1 := Filled(x, i, t);
      FillStep(x, i, t, true);
      FillStep(x, i, t, false);
      var j := DescentIndex(i, i == |x.children| - 1, |x1.keys|, true);
      assert j == DescentIndex(i, i == |x.children| - 1, |x1.keys|, false);
      assert Sub(x1.children[j], t);
      GuardsAgree(x1.children[j], k, t);
    }
  }

  lemma {:induction false} GuardsAgreeInternal(x: Node, i: nat, t: nat)
    requires t >= 2 && Sub(x, t) && !x.leaf && i < |x.keys|
    ensures DeleteFromInternal(x, i, t, true) == DeleteFromInternal(x, i, t, false)
    decreases Height(x), 0
  {
    assert Sub(x.children[i], t) && Sub(x.children[i + 1], t);
    if |x.children[i].keys| >= t {
      GuardsAgree(x.children[i], GetPredecessor(x.children[i], t), t);
    } else if |x.children[i + 1].keys| >= t {
      GuardsAgree(x.children[i + 1], GetSuccessor(x.children[i + 1], t), t);
    } else {
      MergeSub(x, i, t);
      var x1 := MergeChildren(x, i);
      assert Sub(x1.children[i], t);
      GuardsAgree(x1.children[i], x.keys[i], t);
    }
  }

  // ----- the root -----

  /** The delete operation on the root: delete below, then replace an internal root left without keys by its only child. */
  function DeleteTree(root: Node, k: int, t: nat, guardLast: bool): Node
    requires t >= 2 && Sub(root, t) && (root.leaf || |root.keys| >= 1)
  {
    DeleteRecSub(root, k, t, guardLast);
    var r := DeleteRec(root, k, t, guardLast);
    if |r.keys| == 0 && !r.leaf then r.children[0] else r
  }

  /**
   * Deleting from a valid tree gives a valid tree whose in-order keys are the
   * old ones without k. The height stays the same or drops by one, and drops
   * only when the root was internal with exactly one key.
   */
  lemma {:induction false} DeleteTreeCorrect(root: Node, k: int, t: nat, guardLast: bool)
    requires ValidTree(root, t)
    ensures
      var r := DeleteTree(root, k, t, guardLast);
      && ValidTree(r, t)
      && InOrder(r) == Remove(InOrder(root), k)
      && (Height(r) == Height(root) || Height(r) == Height(root) - 1)
      && (Height(r) == Height(root) - 1 ==> |root.keys| == 1 && !root.leaf)
  {
    DeleteRecSub(root, k, t, guardLast);
    DeleteRecInOrder(root, k, t, guardLast);
    var r := DeleteRec(root, k, t, guardLast);
    RemoveKeepsSorted(InOrder(root), k);
    if |r.keys| == 0 && !r.leaf {
      assert |r.children| == 1;
      assert SubNonRoot(r.children[0], t);
      InterleaveSingle(r.children[0]);
      assert Height(r) == Height(r.children[0]) + 1;
    }
  }
}
