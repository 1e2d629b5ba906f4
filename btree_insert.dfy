/**
 * Top-down insertion with preemptive splitting: a full root grows the tree
 * by one level, a full child is split before the descent enters it, and the
 * key is shifted into place at a leaf.
 */
module BTreeInsert {
  import opened BTreeNodes
  import opened KeySequences
  import opened BTreeShape

  /** The index right after the last key not larger than k (0 when every key is larger). */
  function ChildIndex(keys: seq<int>, k: int): (i: nat)
    ensures i <= |keys|
    ensures forall j :: i <= j < |keys| ==> k < keys[j]
    ensures i > 0 ==> keys[i - 1] <= k
  {
    if keys == [] || keys[|keys| - 1] <= k then |keys| else ChildIndex(keys[..|keys| - 1], k)
  }

  /** The backward scan over a node's keys, as a loop: from the last key down past every key larger than k. */
  method ScanChildIndex(keys: seq<int>, k: int) returns (i: nat)
    ensures i == ChildIndex(keys, k)
  {
    var j: int := |keys| - 1;
    while j >= 0 && k < keys[j]
      invariant -1 <= j < |keys|
      invariant forall m :: j < m < |keys| ==> k < keys[m]
    {
      j := j - 1;
    }
    i := j + 1;
  }

  /**
   * Leaf insertion in place: the key list grows by one slot, the keys larger
   * than k shift one place right, and k fills the gap.
   */
  method ShiftInsert(keys: seq<int>, k: int) returns (r: seq<int>)
    ensures r == keys[..ChildIndex(keys, k)] + [k] + keys[ChildIndex(keys, k)..]
  {
    var n := |keys|;
    var a := new int[n + 1];
    forall m | 0 <= m < n {
      a[m] := keys[m];
    }
    var c := MakeRoom(a, keys, k);
    a[c] := k;
    r := a[..];
    ShiftedEquals(r, keys, c, k);
  }

  /**
   * Walk down from the last key, moving each key larger than k one slot to
   * the right; the slot left free is k's sorted place.
   */
  method MakeRoom(a: array<int>, keys: seq<int>, k: int) returns (c: nat)
    requires a.Length == |keys| + 1
    requires forall m :: 0 <= m < |keys| ==> a[m] == keys[m]
    modifies a
    ensures c <= |keys| && c == ChildIndex(keys, k)
    ensures forall m :: 0 <= m < c ==> a[m] == keys[m]
    ensures forall m :: c < m <= |keys| ==> a[m] == keys[m - 1]
  {
    var i: int := |keys| - 1;
    while i >= 0 && k < a[i]
      invariant -1 <= i < |keys|
      invariant forall m :: 0 <= m <= i ==> a[m] == keys[m]
      invariant forall m :: i + 2 <= m <= |keys| ==> a[m] == keys[m - 1]
      invariant forall m :: i < m < |keys| ==> k < keys[m]
    {
      a[i + 1] := a[i];
      i := i - 1;
    }
    c := i + 1;
    ChildIndexUnique(keys, k, c);
  }

  /** The index after the last key not larger than k, when the later keys are all larger. */
  lemma ChildIndexUnique(keys: seq<int>, k: int, c: nat)
    requires c <= |keys|
    requires forall m :: c <= m < |keys| ==> k < keys[m]
    requires c > 0 ==> keys[c - 1] <= k
    ensures c == ChildIndex(keys, k)
  {
  }

  lemma ShiftedEquals(r: seq<int>, keys: seq<int>, c: nat, k: int)
    requires c <= |keys| && |r| == |keys| + 1
    requires forall m :: 0 <= m < c ==> r[m] == keys[m]
    requires r[c] == k
    requires forall m :: c < m < |r| ==> r[m] == keys[m - 1]
    ensures r == keys[..c] + [k] + keys[c..]
  {
  }

  /** A node with the maximum 2t-1 keys that is a leaf or has one more child than keys. */
  predicate Full(y: Node, t: nat)
  {
    |y.keys| == 2 * t - 1 && (y.leaf || |y.children| == 2 * t)
  }

  /** What the split child keeps: its first t-1 keys (and first t children). */
  function LeftHalf(y: Node, t: nat): Node
    requires t >= 2 && Full(y, t)
  {
    y.(keys := y.keys[..t - 1], children := if y.leaf then y.children else y.children[..t])
  }

  /** The new sibling: a fresh node with the child's leaf flag, its last t-1 keys (and last t children). */
  function RightHalf(y: Node, t: nat): Node
    requires t >= 2 && Full(y, t)
  {
    NewNode(y.leaf).(keys := y.keys[t..], children := if y.leaf then [] else y.children[t..])
  }

  /**
   * Split the full child y = x.children[i]: y's median key y.keys[t-1] moves
   * into x at index i, a new sibling holding y.keys[t..] (and, for an
   * internal y, y.children[t..]) is placed at x.children[i+1], and y keeps
   * y.keys[..t-1] (and y.children[..t]).
   */
  function SplitChild(x: Node, i: nat, t: nat): Node
    requires t >= 2 && !x.leaf && i < |x.children| && i <= |x.keys| && Full(x.children[i], t)
  {
    var y := x.children[i];
    x.(keys := x.keys[..i] + [y.keys[t - 1]] + x.keys[i..],
       children := x.children[..i] + [LeftHalf(y, t), RightHalf(y, t)] + x.children[i + 1..])
  }

  /** The two halves of a split node, with its median between them, give back its in-order keys. */
  lemma {:induction false} SplitHalvesInOrder(y: Node, t: nat)
    requires t >= 2 && Full(y, t)
    ensures InOrder(y) == InOrder(LeftHalf(y, t)) + [y.keys[t - 1]] + InOrder(RightHalf(y, t))
  {
    var ks := y.keys;
    if y.leaf {
      assert ks == ks[..t - 1] + [ks[t - 1]] + ks[t..];
    } else {
      var ch := y.children;
      var l, r := LeftHalf(y, t), RightHalf(y, t);
      assert !l.leaf && l.children == ch[..t] && l.keys == ks[..t - 1];
      assert !r.leaf && r.children == ch[t..] && r.keys == ks[t..];
      InterleaveAt(ch, ks, t - 1);
      var left, right := Interleave(ch[..t], ks[..t - 1]), Interleave(ch[t..], ks[t..]);
      assert InOrder(y) == left + [ks[t - 1]] + right;
      assert InOrder(l) == left && InOrder(r) == right;
    }
  }

  /** Both halves of a full node are well formed, hold t-1 keys and are as high as the node. */
  lemma {:induction false} SplitHalvesSub(y: Node, t: nat)
    requires t >= 2 && Sub(y, t) && |y.keys| == 2 * t - 1
    ensures Full(y, t)
    ensures SubNonRoot(LeftHalf(y, t), t) && Height(LeftHalf(y, t)) == Height(y)
    ensures SubNonRoot(RightHalf(y, t), t) && Height(RightHalf(y, t)) == Height(y)
    ensures LeftHalf(y, t).leaf == y.leaf && RightHalf(y, t).leaf == y.leaf
  {
    var y', z := LeftHalf(y, t), RightHalf(y, t);
    if !y.leaf {
      forall j | 0 <= j < |y'.children|
        ensures Sub(y'.children[j], t) && t - 1 <= |y'.children[j].keys| && Height(y'.children[j]) + 1 == Height(y')
      {
        assert y'.children[j] == y.children[j];
      }
      assert z.children[0] == y.children[t];
      forall j | 0 <= j < |z.children|
        ensures Sub(z.children[j], t) && t - 1 <= |z.children[j].keys| && Height(z.children[j]) + 1 == Height(z)
      {
        assert z.children[j] == y.children[t + j];
      }
    }
  }

  /** Splitting a full child of a non-full node keeps the node well formed and as high. */
  lemma {:induction false} SplitChildSub(x: Node, i: nat, t: nat)
    requires t >= 2 && Sub(x, t) && !x.leaf && |x.keys| < 2 * t - 1
    requires i < |x.children| && |x.children[i].keys| == 2 * t - 1
    ensures Full(x.children[i], t)
    ensures Sub(SplitChild(x, i, t), t) && Height(SplitChild(x, i, t)) == Height(x)
  {
    var y := x.children[i];
    assert Sub(y, t) && Height(y) + 1 == Height(x);
    SplitHalvesSub(y, t);
    var r := SplitChild(x, i, t);
    var h := Height(y);
    forall j | 0 <= j < |r.children|
      ensures SubNonRoot(r.children[j], t) && Height(r.children[j]) == h
    {
      if j < i { assert r.children[j] == x.children[j]; }
      else if j == i { assert r.children[j] == LeftHalf(y, t); }
      else if j == i + 1 { assert r.children[j] == RightHalf(y, t); }
      else { assert r.children[j] == x.children[j - 1]; }
    }
    SubIntro(r, t, h);
  }

  /** Splitting a child moves keys between levels without changing the in-order sequence. */
  lemma {:induction false} SplitChildInOrder(x: Node, i: nat, t: nat)
    requires t >= 2 && InternalShape(x) && i < |x.children| && Full(x.children[i], t)
    ensures InOrder(SplitChild(x, i, t)) == InOrder(x)
  {
    var y, r := x.children[i], SplitChild(x, i, t);
    var l, z := LeftHalf(y, t), RightHalf(y, t);
    SplitBefore(x, i, t);
    SplitAfter(x, i, t);
    SplitHalvesInOrder(y, t);
    Around(x, i);
    Around(r, i);
    AfterStep(r, i);
    Regroup(Before(x, i), InOrder(l), y.keys[t - 1], InOrder(z), After(x, i));
  }

  /** Left of the split child lie the same keys as before. */
  lemma {:induction false} SplitBefore(x: Node, i: nat, t: nat)
    requires t >= 2 && InternalShape(x) && i < |x.children| && Full(x.children[i], t)
    ensures
      var y, r := x.children[i], SplitChild(x, i, t);
      && InternalShape(r) && i < |r.keys|
      && Before(r, i) == Before(x, i)
      && r.children[i] == LeftHalf(y, t) && r.children[i + 1] == RightHalf(y, t) && r.keys[i] == y.keys[t - 1]
  {
    var r := SplitChild(x, i, t);
    assert r.children[..i] == x.children[..i] && r.keys[..i] == x.keys[..i];
  }

  /** Right of the new sibling lie exactly the keys that were right of the split child. */
  lemma {:induction false} SplitAfter(x: Node, i: nat, t: nat)
    requires t >= 2 && InternalShape(x) && i < |x.children| && Full(x.children[i], t)
    ensures After(SplitChild(x, i, t), i + 1) == After(x, i)
  {
    var r := SplitChild(x, i, t);
    if i < |x.keys| {
      assert r.keys[i + 1] == x.keys[i];
      assert r.children[i + 2..] == x.children[i + 1..] && r.keys[i + 2..] == x.keys[i + 1..];
    }
  }

  /**
   * Splitting the full child i of a non-full node: the median lands at x.keys[i],
   * both halves keep t-1 keys, an internal child's children are shared out t
   * to the left half and the rest to the right, and the node's in-order keys,
   * height and well-formedness are unchanged.
   */
  lemma {:induction false} SplitChildCorrect(x: Node, i: nat, t: nat)
    requires t >= 2 && Sub(x, t) && !x.leaf && |x.keys| < 2 * t - 1
    requires i < |x.children| && |x.children[i].keys| == 2 * t - 1
    ensures Full(x.children[i], t)
    ensures
      var y, r := x.children[i], SplitChild(x, i, t);
      && |r.keys| == |x.keys| + 1 && |r.children| == |x.children| + 1
      && r.keys[i] == y.keys[t - 1]
      && r.children[i].keys + [r.keys[i]] + r.children[i + 1].keys == y.keys
      && |r.children[i].keys| == t - 1 && |r.children[i + 1].keys| == t - 1
      && (!y.leaf ==> r.children[i].children + r.children[i + 1].children == y.children
                      && |r.children[i].children| == t)
      && InOrder(r) == InOrder(x)
      && Sub(r, t) && Height(r) == Height(x)
  {
    SplitChildSub(x, i, t);
    SplitChildInOrder(x, i, t);
    SplitBefore(x, i, t);
    SplitHalvesParts(x.children[i], t);
  }

  /** The halves of a full node share out its keys around the median, and its children. */
  lemma {:induction false} SplitHalvesParts(y: Node, t: nat)
    requires t >= 2 && Full(y, t)
    ensures
      var l, r := LeftHalf(y, t), RightHalf(y, t);
      && l.keys + [y.keys[t - 1]] + r.keys == y.keys
      && |l.keys| == t - 1 && |r.keys| == t - 1
      && (!y.leaf ==> l.children + r.children == y.children && |l.children| == t)
  {
    assert y.keys == y.keys[..t - 1] + [y.keys[t - 1]] + y.keys[t..];
    if !y.leaf {
      assert y.children == y.children[..t] + y.children[t..];
    }
  }

  /**
   * The step InsertNonFull takes at an internal node: find the child on k's
   * path, split it first when it is full, and return the (possibly split)
   * node with the index of the child to descend into, which is not full.
   */
  function Descend(x: Node, k: int, t: nat): (Node, nat)
    requires t >= 2 && Sub(x, t) && !x.leaf
  {
    var i := ChildIndex(x.keys, k);
    if |x.children[i].keys| == 2 * t - 1 then
      assert Sub(x.children[i], t);
      var x1 := SplitChild(x, i, t);
      (x1, if k > x1.keys[i] then i + 1 else i)
    else
      (x, i)
  }

  /** After a split the two halves are well-formed children with t-1 keys each, one level below x. */
  lemma {:induction false} SplitChildHalves(x: Node, i: nat, t: nat)
    requires t >= 2 && Sub(x, t) && !x.leaf && |x.keys| < 2 * t - 1
    requires i < |x.children| && |x.children[i].keys| == 2 * t - 1
    ensures Full(x.children[i], t)
    ensures
      var r := SplitChild(x, i, t);
      && !r.leaf && i + 1 < |r.children| && i < |r.keys|
      && Sub(r.children[i], t) && |r.children[i].keys| == t - 1 && Height(r.children[i]) < Height(x)
      && Sub(r.children[i + 1], t) && |r.children[i + 1].keys| == t - 1 && Height(r.children[i + 1]) < Height(x)
  {
    var y := x.children[i];
    assert Sub(y, t) && Height(y) + 1 == Height(x);
    SplitHalvesSub(y, t);
    SplitBefore(x, i, t);
  }

  /**
   * The node Descend returns is well formed, as high as x, internal, and has
   * no fewer keys; the child it picks is well formed, not full, and lower.
   */
  lemma {:induction false} DescendSub(x: Node, k: int, t: nat)
    requires t >= 2 && Sub(x, t) && !x.leaf && |x.keys| < 2 * t - 1
    ensures
      var p := Descend(x, k, t);
      && Sub(p.0, t) && !p.0.leaf && Height(p.0) == Height(x) && |p.0.keys| >= |x.keys|
      && p.1 < |p.0.children| && Sub(p.0.children[p.1], t)
      && |p.0.children[p.1].keys| < 2 * t - 1 && Height(p.0.children[p.1]) < Height(x)
  {
    var i := ChildIndex(x.keys, k);
    if |x.children[i].keys| == 2 * t - 1 {
      SplitChildCorrect(x, i, t);
      SplitChildHalves(x, i, t);
    } else {
      assert Sub(x.children[i], t) && Height(x.children[i]) + 1 == Height(x);
    }
  }

  /** Descending keeps the in-order keys, and the chosen child is the one whose separators bracket an absent k. */
  lemma {:induction false} DescendInOrder(x: Node, k: int, t: nat)
    requires t >= 2 && Sub(x, t) && !x.leaf && |x.keys| < 2 * t - 1
    requires Sorted(InOrder(x)) && k !in InOrder(x)
    ensures
      var p := Descend(x, k, t);
      && InOrder(p.0) == InOrder(x)
      && (p.1 > 0 ==> p.0.keys[p.1 - 1] < k)
      && (p.1 < |p.0.keys| ==> k < p.0.keys[p.1])
  {
    if |x.children[ChildIndex(x.keys, k)].keys| == 2 * t - 1 {
      DescendSplitting(x, k, t);
    } else {
      ChildIndexBrackets(x, k);
    }
  }

  /** When the child on k's path is full, descending splits it and picks the half on k's side. */
  lemma {:induction false} DescendSplitting(x: Node, k: int, t: nat)
    requires t >= 2 && Sub(x, t) && !x.leaf && |x.keys| < 2 * t - 1
    requires Sorted(InOrder(x)) && k !in InOrder(x)
    requires |x.children[ChildIndex(x.keys, k)].keys| == 2 * t - 1
    ensures
      var p := Descend(x, k, t);
      && InOrder(p.0) == InOrder(x)
      && (p.1 > 0 ==> p.0.keys[p.1 - 1] < k)
      && (p.1 < |p.0.keys| ==> k < p.0.keys[p.1])
  {
    var i := ChildIndex(x.keys, k);
    assert Full(x.children[i], t) by {
      assert Sub(x.children[i], t);
    }
    assert (i > 0 ==> x.keys[i - 1] < k) && (i < |x.keys| ==> k < x.keys[i]) by {
      ChildIndexBrackets(x, k);
    }
    var x1 := SplitChild(x, i, t);
    assert Descend(x, k, t) == (x1, if k > x1.keys[i] then i + 1 else i);
    SplitBrackets(x, i, k, t);
  }

  /** The separators around child ChildIndex(x.keys, k) bracket an absent k strictly. */
  lemma {:induction false} ChildIndexBrackets(x: Node, k: int)
    requires InternalShape(x) && k !in InOrder(x)
    ensures
      var i := ChildIndex(x.keys, k);
      && i < |x.children|
      && (i > 0 ==> x.keys[i - 1] < k)
      && (i < |x.keys| ==> k < x.keys[i])
  {
    var i := ChildIndex(x.keys, k);
    if i > 0 {
      KeyInInOrder(x, i - 1);
    }
  }

  /** After splitting child i, whose separators bracket k, the half on k's side is bracketed by the new separators. */
  lemma {:induction false} SplitBrackets(x: Node, i: nat, k: int, t: nat)
    requires t >= 2 && InternalShape(x) && i < |x.children| && Full(x.children[i], t)
    requires Sorted(InOrder(x)) && k !in InOrder(x)
    requires i > 0 ==> x.keys[i - 1] < k
    requires i < |x.keys| ==> k < x.keys[i]
    ensures
      var x1 := SplitChild(x, i, t);
      var p := (x1, if k > x1.keys[i] then i + 1 else i);
      && InOrder(p.0) == InOrder(x)
      && (p.1 > 0 ==> p.0.keys[p.1 - 1] < k)
      && (p.1 < |p.0.keys| ==> k < p.0.keys[p.1])
  {
    SplitChildInOrder(x, i, t);
    var x1 := SplitChild(x, i, t);
    assert InternalShape(x1);
    KeyInInOrder(x1, i);
    assert i < |x.keys| ==> x1.keys[i + 1] == x.keys[i];
    assert i > 0 ==> x1.keys[i - 1] == x.keys[i - 1];
  }

  /**
   * Insert k into the subtree of a node that is not full. At a leaf the key
   * is shifted into its sorted position; at an internal node a full child is
   * split first, so a full node is never entered.
   */
  function InsertNonFull(x: Node, k: int, t: nat): Node
    requires t >= 2 && Sub(x, t) && |x.keys| < 2 * t - 1
    decreases Height(x)
  {
    if x.leaf then
      var i := ChildIndex(x.keys, k);
      x.(keys := x.keys[..i] + [k] + x.keys[i..])
    else
      var p := Descend(x, k, t);
      DescendSub(x, k, t);
      SetChild(p.0, p.1, InsertNonFull(p.0.children[p.1], k, t))
  }

  /** Descending into child j whose separators bracket k: insertion commutes with the surrounding keys. */
  lemma {:induction false} InsertIntoChild(x: Node, j: nat, c: Node, k: int)
    requires InternalShape(x) && j < |x.children| && Sorted(InOrder(x))
    requires j > 0 ==> x.keys[j - 1] < k
    requires j < |x.keys| ==> k < x.keys[j]
    requires InOrder(c) == InsertSorted(InOrder(x.children[j]), k)
    ensures InOrder(SetChild(x, j, c)) == InsertSorted(InOrder(x), k)
  {
    SeparatorBounds(x, j, k);
    Around(x, j);
    InOrderSetChild(x, j, c);
    InsertSortedBetween(Before(x, j), InOrder(x.children[j]), After(x, j), k);
  }

  /** InsertNonFull keeps the subtree well formed, at the same height, with no fewer top-node keys. */
  lemma {:induction false} InsertNonFullSub(x: Node, k: int, t: nat)
    requires t >= 2 && Sub(x, t) && |x.keys| < 2 * t - 1
    ensures
      var r := InsertNonFull(x, k, t);
      Sub(r, t) && Height(r) == Height(x) && r.leaf == x.leaf && |r.keys| >= |x.keys|
    decreases Height(x)
  {
    if !x.leaf {
      var p := Descend(x, k, t);
      DescendSub(x, k, t);
      var c := p.0.children[p.1];
      InsertNonFullSub(c, k, t);
      SubSetChild(p.0, p.1, InsertNonFull(c, k, t), t);
    }
  }

  /** InsertNonFull adds exactly k, at its sorted place, to the in-order keys. */
  lemma {:induction false} InsertNonFullInOrder(x: Node, k: int, t: nat)
    requires t >= 2 && Sub(x, t) && |x.keys| < 2 * t - 1
    requires Sorted(InOrder(x)) && k !in InOrder(x)
    ensures InOrder(InsertNonFull(x, k, t)) == InsertSorted(InOrder(x), k)
    decreases Height(x)
  {
    if x.leaf {
      InsertAt(x.keys, ChildIndex(x.keys, k), k);
    } else {
      var p := Descend(x, k, t);
      DescendSub(x, k, t);
      DescendInOrder(x, k, t);
      var y, j := p.0, p.1;
      var c := y.children[j];
      ChildSorted(y, j);
      Around(y, j);
      assert k !in InOrder(c);
      InsertNonFullInOrder(c, k, t);
      var c' := InsertNonFull(c, k, t);
      InsertIntoChild(y, j, c', k);
      assert InsertNonFull(x, k, t) == SetChild(y, j, c');
    }
  }

  /**
   * The insert operation on the root: a full root (2t-1 keys) is put under a
   * fresh internal root and split, then the key goes in with InsertNonFull.
   */
  function InsertTree(root: Node, k: int, t: nat): Node
    requires t >= 2 && Sub(root, t)
  {
    if |root.keys| == 2 * t - 1 then
      var s := NewNode().(children := [root]);
      assert Sub(s, t) by {
        assert s.children[0] == root;
      }
      SplitChildCorrect(s, 0, t);
      InsertNonFull(SplitChild(s, 0, t), k, t)
    else
      InsertNonFull(root, k, t)
  }

  /** A full root put under a fresh root and split gives an internal root with one key, one level higher. */
  lemma {:induction false} GrowRoot(root: Node, t: nat)
    requires t >= 2 && Sub(root, t) && |root.keys| == 2 * t - 1
    ensures
      var s := NewNode().(children := [root]);
      && Sub(s, t) && Full(s.children[0], t)
      && var r := SplitChild(s, 0, t);
      && Sub(r, t) && !r.leaf && |r.keys| == 1
      && InOrder(r) == InOrder(root) && Height(r) == Height(root) + 1
  {
    var s := NewNode().(children := [root]);
    assert s.children[0] == root;
    assert Sub(s, t);
    InterleaveSingle(root);
    assert InOrder(s) == InOrder(root);
    SplitChildCorrect(s, 0, t);
  }

  /**
   * Inserting an absent key into a valid tree gives a valid tree whose
   * in-order keys are the old ones with k at its sorted place; the height
   * grows by exactly one when the root was full and stays the same otherwise.
   */
  lemma {:induction false} InsertTreeCorrect(root: Node, k: int, t: nat)
    requires ValidTree(root, t) && k !in InOrder(root)
    ensures
      var r := InsertTree(root, k, t);
      && ValidTree(r, t)
      && InOrder(r) == InsertSorted(InOrder(root), k)
      && Height(r) == (if |root.keys| == 2 * t - 1 then Height(root) + 1 else Height(root))
  {
    var r := InsertTree(root, k, t);
    if |root.keys| == 2 * t - 1 {
      var s := NewNode().(children := [root]);
      GrowRoot(root, t);
      var s' := SplitChild(s, 0, t);
      assert r == InsertNonFull(s', k, t);
      InsertNonFullSub(s', k, t);
      InsertNonFullInOrder(s', k, t);
    } else {
      InsertNonFullSub(root, k, t);
      InsertNonFullInOrder(root, k, t);
    }
    InsertSortedKeepsSorted(InOrder(root), k);
  }
}
