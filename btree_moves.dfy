/**
 * The node moves deletion uses to keep every child it enters above the
 * minimum: merging two siblings around their separator, rotating one key
 * (and one child) in from the left or the right sibling, and the
 * fill step that picks one of these.
 */
module BTreeMoves {
  import opened BTreeNodes
  import opened KeySequences
  import opened BTreeShape

  /** Two siblings that are both leaves, or both internal with one more child than keys. */
  predicate Joinable(c: Node, s: Node)
  {
    (c.leaf && s.leaf) || (InternalShape(c) && InternalShape(s))
  }

  /**
   * Merge children[i+1] into children[i]: the separator keys[i] and then the
   * sibling's keys are appended to the child's keys, the sibling's children to
   * its children, and the separator and the sibling leave x.
   */
  function MergeChildren(x: Node, i: nat): Node
    requires !x.leaf && i < |x.keys| && i + 1 < |x.children|
  {
    var c, s := x.children[i], x.children[i + 1];
    var m := c.(keys := c.keys + [x.keys[i]] + s.keys, children := c.children + s.children);
    x.(keys := x.keys[..i] + x.keys[i + 1..], children := x.children[..i] + [m] + x.children[i + 2..])
  }

  /**
   * Rotate through separator keys[i-1]: it becomes the first key of
   * children[i], the left sibling's last key replaces it, and for an internal
   * child the sibling's last child becomes the child's first.
   */
  function BorrowFromPrev(x: Node, i: nat): Node
    requires !x.leaf && 0 < i < |x.children| && i <= |x.keys|
    requires |x.children[i - 1].keys| >= 1
    requires !x.children[i].leaf ==> |x.children[i - 1].children| >= 1
  {
    var c, s := x.children[i], x.children[i - 1];
    var n := |s.keys|;
    var c' := if c.leaf then c.(keys := [x.keys[i - 1]] + c.keys)
              else c.(keys := [x.keys[i - 1]] + c.keys, children := [s.children[|s.children| - 1]] + c.children);
    var s' := if c.leaf then s.(keys := s.keys[..n - 1])
              else s.(keys := s.keys[..n - 1], children := s.children[..|s.children| - 1]);
    x.(keys := x.keys[i - 1 := s.keys[n - 1]], children := x.children[i - 1 := s'][i := c'])
  }

  /**
   * Rotate through separator keys[i]: it becomes the last key of children[i],
   * the right sibling's first key replaces it, and for an internal child the
   * sibling's first child becomes the child's last.
   */
  function BorrowFromNext(x: Node, i: nat): Node
    requires !x.leaf && i < |x.keys| && i + 1 < |x.children|
    requires |x.children[i + 1].keys| >= 1
    requires !x.children[i].leaf ==> |x.children[i + 1].children| >= 1
  {
    var c, s := x.children[i], x.children[i + 1];
    var c' := if c.leaf then c.(keys := c.keys + [x.keys[i]])
              else c.(keys := c.keys + [x.keys[i]], children := c.children + [s.children[0]]);
    var s' := if c.leaf then s.(keys := s.keys[1..])
              else s.(keys := s.keys[1..], children := s.children[1..]);
    x.(keys := x.keys[i := s.keys[0]], children := x.children[i := c'][i + 1 := s'])
  }

  /** The fill step ends in a merge of child i into its left sibling. */
  predicate FillMergesLeft(x: Node, i: nat, t: nat)
    requires i < |x.children|
  {
    i == |x.keys| && !(i != 0 && |x.children[i - 1].keys| >= t)
  }

  /**
   * Bring child i up from t-1 keys: borrow from the left sibling when it has
   * at least t keys, else from the right sibling when it has at least t keys,
   * else merge with the right sibling, or with the left one for the last child.
   */
  function FillChild(x: Node, i: nat, t: nat): Node
    requires t >= 2 && Sub(x, t) && !x.leaf && |x.keys| >= 1 && i < |x.children|
  {
    var c := x.children[i];
    assert Sub(c, t);
    if i != 0 && |x.children[i - 1].keys| >= t then
      assert Sub(x.children[i - 1], t);
      SameHeightSameLeaf(c, x.children[i - 1], t);
      BorrowFromPrev(x, i)
    else if i != |x.keys| && |x.children[i + 1].keys| >= t then
      assert Sub(x.children[i + 1], t);
      SameHeightSameLeaf(c, x.children[i + 1], t);
      BorrowFromNext(x, i)
    else if i != |x.keys| then
      MergeChildren(x, i)
    else
      MergeChildren(x, i - 1)
  }

  // ----- in-order keys of the moved pieces -----

  /** A merged child holds the child's in-order keys, the separator, then the sibling's. */
  lemma {:induction false} MergedInOrder(c: Node, k: int, s: Node)
    requires Joinable(c, s)
    ensures InOrder(c.(keys := c.keys + [k] + s.keys, children := c.children + s.children))
         == InOrder(c) + [k] + InOrder(s)
  {
    if !c.leaf {
      InterleaveAppend(c.children, c.keys + [k], s.children, s.keys);
      InterleaveCloses(c.children, c.keys, k);
    }
  }

  /** Merging keeps the node's in-order keys; the merged child is the child, the separator and the sibling. */
  lemma {:induction false} MergeInOrder(x: Node, i: nat)
    requires InternalShape(x) && i < |x.keys| && Joinable(x.children[i], x.children[i + 1])
    ensures InOrder(MergeChildren(x, i)) == InOrder(x)
    ensures InOrder(MergeChildren(x, i).children[i])
         == InOrder(x.children[i]) + [x.keys[i]] + InOrder(x.children[i + 1])
    ensures Before(MergeChildren(x, i), i) == Before(x, i)
    ensures After(x, i) == [x.keys[i]] + InOrder(x.children[i + 1]) + After(MergeChildren(x, i), i)
  {
    var r := MergeChildren(x, i);
    MergedInOrder(x.children[i], x.keys[i], x.children[i + 1]);
    assert r.children[..i] == x.children[..i] && r.keys[..i] == x.keys[..i];
    assert After(MergeChildren(x, i), i) == After(x, i + 1) by {
      if i + 1 < |x.keys| {
        assert r.keys[i] == x.keys[i + 1];
        assert r.children[i + 1..] == x.children[i + 2..] && r.keys[i + 1..] == x.keys[i + 2..];
      }
    }
    Around(x, i);
    Around(r, i);
    AfterStep(x, i);
  }

  /** The left sibling splits into what it keeps, the key it gives up and (when internal) the child it gives up. */
  lemma {:induction false} BorrowPrevPieces(x: Node, i: nat)
    requires InternalShape(x) && 0 < i < |x.children| && Joinable(x.children[i], x.children[i - 1])
    requires |x.children[i - 1].keys| >= 1
    ensures
      var c, s, r := x.children[i], x.children[i - 1], BorrowFromPrev(x, i);
      var m := if c.leaf then [] else InOrder(s.children[|s.children| - 1]);
      && InOrder(s) == InOrder(r.children[i - 1]) + [r.keys[i - 1]] + m
      && InOrder(r.children[i]) == m + [x.keys[i - 1]] + InOrder(c)
  {
    var c, s, r := x.children[i], x.children[i - 1], BorrowFromPrev(x, i);
    var n := |s.keys|;
    assert s.keys == s.keys[..n - 1] + [s.keys[n - 1]];
    if !c.leaf {
      var cs := s.children;
      InterleaveLast(cs, s.keys);
      InterleaveCloses(cs[..n], s.keys[..n - 1], s.keys[n - 1]);
      var c' := r.children[i];
      assert c'.children[0] == cs[n] && c'.children[1..] == c.children;
      assert c'.keys[0] == x.keys[i - 1] && c'.keys[1..] == c.keys;
    }
  }

  /** Borrowing from the left keeps the in-order keys, with the left part shrinking and the right part unchanged. */
  lemma {:induction false} BorrowPrevInOrder(x: Node, i: nat)
    requires InternalShape(x) && 0 < i < |x.children| && Joinable(x.children[i], x.children[i - 1])
    requires |x.children[i - 1].keys| >= 1
    ensures
      var c, s, r := x.children[i], x.children[i - 1], BorrowFromPrev(x, i);
      var m := if c.leaf then [] else InOrder(s.children[|s.children| - 1]);
      && InOrder(r) == InOrder(x)
      && Before(x, i) == Before(r, i) + m + [x.keys[i - 1]]
      && After(r, i) == After(x, i)
  {
    var c, s, r := x.children[i], x.children[i - 1], BorrowFromPrev(x, i);
    var m := if c.leaf then [] else InOrder(s.children[|s.children| - 1]);
    BorrowPrevPieces(x, i);
    BorrowPrevBefore(x, i);
    var sep := x.keys[i - 1];
    assert After(r, i) == After(x, i) by {
      assert r.children[i + 1..] == x.children[i + 1..] && r.keys[i..] == x.keys[i..];
    }
    Around(x, i);
    Around(r, i);
    RegroupFlat(Before(r, i), m, sep, InOrder(c), After(x, i));
  }

  /** Left of the borrowing child, the left sibling's last key and (when internal) last child are gone. */
  lemma {:induction false} BorrowPrevBefore(x: Node, i: nat)
    requires InternalShape(x) && 0 < i < |x.children| && Joinable(x.children[i], x.children[i - 1])
    requires |x.children[i - 1].keys| >= 1
    ensures
      var c, s, r := x.children[i], x.children[i - 1], BorrowFromPrev(x, i);
      var m := if c.leaf then [] else InOrder(s.children[|s.children| - 1]);
      Before(x, i) == Before(r, i) + m + [x.keys[i - 1]]
  {
    var c, s, r := x.children[i], x.children[i - 1], BorrowFromPrev(x, i);
    var m := if c.leaf then [] else InOrder(s.children[|s.children| - 1]);
    BorrowPrevPieces(x, i);
    var b := Before(x, i - 1);
    BorrowPrevPrefix(x, i);
    var l, k, sep := InOrder(r.children[i - 1]), r.keys[i - 1], x.keys[i - 1];
    assert InOrder(s) == l + [k] + m;
    BeforeStep(x, i - 1);
    assert Before(x, i) == b + (l + [k] + m) + [sep];
    BeforeStep(r, i - 1);
    assert Before(r, i) == b + l + [k];
    RegroupFlat(b, l, k, m, [sep]);
  }

  /** Borrowing from the left leaves everything left of the left sibling alone. */
  lemma {:induction false} BorrowPrevPrefix(x: Node, i: nat)
    requires InternalShape(x) && 0 < i < |x.children| && Joinable(x.children[i], x.children[i - 1])
    requires |x.children[i - 1].keys| >= 1
    ensures InternalShape(BorrowFromPrev(x, i)) && |BorrowFromPrev(x, i).keys| == |x.keys|
    ensures Before(BorrowFromPrev(x, i), i - 1) == Before(x, i - 1)
  {
    var r := BorrowFromPrev(x, i);
    assert r.children[..i - 1] == x.children[..i - 1] && r.keys[..i - 1] == x.keys[..i - 1];
  }

  /** The right sibling splits into (when internal) the child it gives up, the key it gives up and what it keeps. */
  lemma {:induction false} BorrowNextPieces(x: Node, i: nat)
    requires InternalShape(x) && i < |x.keys| && Joinable(x.children[i], x.children[i + 1])
    requires |x.children[i + 1].keys| >= 1
    ensures
      var c, s, r := x.children[i], x.children[i + 1], BorrowFromNext(x, i);
      var m := if c.leaf then [] else InOrder(s.children[0]);
      && InOrder(s) == m + [r.keys[i]] + InOrder(r.children[i + 1])
      && InOrder(r.children[i]) == InOrder(c) + [x.keys[i]] + m
  {
    var c, s, r := x.children[i], x.children[i + 1], BorrowFromNext(x, i);
    assert s.keys == [s.keys[0]] + s.keys[1..];
    assert r.keys[i] == s.keys[0];
    if c.leaf {
      assert r.children[i + 1] == s.(keys := s.keys[1..]);
      assert r.children[i] == c.(keys := c.keys + [x.keys[i]]);
      assert InOrder(s) == s.keys && InOrder(c) == c.keys;
      assert InOrder(r.children[i + 1]) == s.keys[1..];
    } else {
      assert r.children[i + 1] == s.(keys := s.keys[1..], children := s.children[1..]);
      assert InOrder(s) == InOrder(s.children[0]) + [s.keys[0]] + Interleave(s.children[1..], s.keys[1..]);
      assert r.children[i] == c.(keys := c.keys + [x.keys[i]], children := c.children + [s.children[0]]);
      assert c.keys + [x.keys[i]] + [] == c.keys + [x.keys[i]];
      InterleaveAppend(c.children, c.keys + [x.keys[i]], [s.children[0]], []);
      InterleaveCloses(c.children, c.keys, x.keys[i]);
      InterleaveSingle(s.children[0]);
    }
  }

  /** Borrowing from the right keeps the in-order keys, with the left part unchanged and the right part shrinking. */
  lemma {:induction false} BorrowNextInOrder(x: Node, i: nat)
    requires InternalShape(x) && i < |x.keys| && Joinable(x.children[i], x.children[i + 1])
    requires |x.children[i + 1].keys| >= 1
    ensures
      var c, s, r := x.children[i], x.children[i + 1], BorrowFromNext(x, i);
      var m := if c.leaf then [] else InOrder(s.children[0]);
      && InOrder(r) == InOrder(x)
      && Before(r, i) == Before(x, i)
      && After(x, i) == [x.keys[i]] + m + After(r, i)
  {
    var c, s, r := x.children[i], x.children[i + 1], BorrowFromNext(x, i);
    var m := if c.leaf then [] else InOrder(s.children[0]);
    BorrowNextPieces(x, i);
    BorrowNextAfter(x, i);
    assert r.children[..i] == x.children[..i] && r.keys[..i] == x.keys[..i];
    assert Before(r, i) == Before(x, i);
    Around(x, i);
    Around(r, i);
    Regroup(Before(x, i), InOrder(c), x.keys[i], m, After(r, i));
  }

  /** Right of the borrowing child, the right sibling's first key and (when internal) first child are gone. */
  lemma {:induction false} BorrowNextAfter(x: Node, i: nat)
    requires InternalShape(x) && i < |x.keys| && Joinable(x.children[i], x.children[i + 1])
    requires |x.children[i + 1].keys| >= 1
    ensures
      var c, s, r := x.children[i], x.children[i + 1], BorrowFromNext(x, i);
      var m := if c.leaf then [] else InOrder(s.children[0]);
      After(x, i) == [x.keys[i]] + m + After(r, i)
  {
    var c, s, r := x.children[i], x.children[i + 1], BorrowFromNext(x, i);
    var m := if c.leaf then [] else InOrder(s.children[0]);
    BorrowNextPieces(x, i);
    assert r.children[i + 2..] == x.children[i + 2..] && r.keys[i + 1..] == x.keys[i + 1..];
    var a := After(x, i + 1);
    assert After(r, i + 1) == a;
    AfterStep(x, i);
    AfterStep(r, i);
    Regroup([x.keys[i]], m, r.keys[i], InOrder(r.children[i + 1]), a);
  }

  // ----- structure of the moved pieces -----

  /** Children of one well-formed node are alike: both leaves or both internal and shaped. */
  lemma {:induction false} SiblingsJoinable(x: Node, i: nat, j: nat, t: nat)
    requires Sub(x, t) && !x.leaf && i < |x.children| && j < |x.children|
    ensures Joinable(x.children[i], x.children[j])
    ensures Sub(x.children[i], t) && Sub(x.children[j], t)
    ensures Height(x.children[i]) == Height(x.children[j])
  {
    assert Sub(x.children[i], t) && Sub(x.children[j], t);
    SameHeightSameLeaf(x.children[i], x.children[j], t);
  }

  /**
   * Merging two minimal siblings (fewer than t keys each) gives a well-formed
   * node of the same height, with one key less, whose merged child holds
   * 2t-1 keys.
   */
  lemma {:induction false} MergeSub(x: Node, i: nat, t: nat)
    requires t >= 2 && Sub(x, t) && !x.leaf && i < |x.keys|
    requires |x.children[i].keys| < t && |x.children[i + 1].keys| < t
    ensures Joinable(x.children[i], x.children[i + 1])
    ensures
      var r := MergeChildren(x, i);
      && Sub(r, t) && Height(r) == Height(x) && !r.leaf
      && |r.keys| == |x.keys| - 1 && |r.children[i].keys| == 2 * t - 1
  {
    var c, s, r := x.children[i], x.children[i + 1], MergeChildren(x, i);
    SiblingsJoinable(x, i, i + 1, t);
    var m := r.children[i];
    var h := Height(c);
    assert Height(c) + 1 == Height(x);
    if !c.leaf {
      forall j | 0 <= j < |m.children|
        ensures SubNonRoot(m.children[j], t) && Height(m.children[j]) == h - 1
      {
        if j < |c.children| {
          assert m.children[j] == c.children[j];
        } else {
          assert m.children[j] == s.children[j - |c.children|];
        }
      }
      SubIntro(m, t, h - 1);
    }
    assert SubNonRoot(m, t) && Height(m) == h;
    forall j | 0 <= j < |r.children|
      ensures SubNonRoot(r.children[j], t) && Height(r.children[j]) == h
    {
      if j < i { assert r.children[j] == x.children[j]; }
      else if j > i { assert r.children[j] == x.children[j + 1]; }
    }
    SubIntro(r, t, h);
  }

  /** Borrowing from a left sibling with at least t keys keeps the node well formed and lifts the child by one key. */
  lemma {:induction false} BorrowPrevSub(x: Node, i: nat, t: nat)
    requires t >= 2 && Sub(x, t) && !x.leaf && 0 < i < |x.children|
    requires |x.children[i - 1].keys| >= t && |x.children[i].keys| < t
    ensures Joinable(x.children[i], x.children[i - 1])
    ensures
      var r := BorrowFromPrev(x, i);
      && Sub(r, t) && Height(r) == Height(x) && !r.leaf
      && |r.keys| == |x.keys| && |r.children[i].keys| == |x.children[i].keys| + 1
  {
    var c := x.children[i];
    BorrowPrevParts(x, i, t);
    var r := BorrowFromPrev(x, i);
    var h := Height(c);
    forall j | 0 <= j < |r.children|
      ensures SubNonRoot(r.children[j], t) && Height(r.children[j]) == h
    {
      if j != i && j != i - 1 { assert r.children[j] == x.children[j]; }
    }
    SubIntro(r, t, h);
  }

  /** After borrowing from the left, the child and its left sibling are well-formed non-root subtrees of the old height. */
  lemma {:induction false} BorrowPrevParts(x: Node, i: nat, t: nat)
    requires t >= 2 && Sub(x, t) && !x.leaf && 0 < i < |x.children|
    requires |x.children[i - 1].keys| >= t && |x.children[i].keys| < t
    ensures Joinable(x.children[i], x.children[i - 1])
    ensures
      var r, h := BorrowFromPrev(x, i), Height(x.children[i]);
      && Height(x.children[i]) + 1 == Height(x)
      && SubNonRoot(r.children[i], t) && Height(r.children[i]) == h
      && SubNonRoot(r.children[i - 1], t) && Height(r.children[i - 1]) == h
  {
    var c, s := x.children[i], x.children[i - 1];
    SiblingsJoinable(x, i, i - 1, t);
    var r := BorrowFromPrev(x, i);
    var c', s' := r.children[i], r.children[i - 1];
    var h := Height(c);
    assert Height(c) + 1 == Height(x);
    if !c.leaf {
      var n := |s.children|;
      forall j | 0 <= j < |c'.children|
        ensures SubNonRoot(c'.children[j], t) && Height(c'.children[j]) == h - 1
      {
        if j == 0 { assert c'.children[j] == s.children[n - 1]; }
        else { assert c'.children[j] == c.children[j - 1]; }
      }
      SubIntro(c', t, h - 1);
      forall j | 0 <= j < |s'.children|
        ensures SubNonRoot(s'.children[j], t) && Height(s'.children[j]) == h - 1
      {
        assert s'.children[j] == s.children[j];
      }
      SubIntro(s', t, h - 1);
    }
  }

  /** Borrowing from a right sibling with at least t keys keeps the node well formed and lifts the child by one key. */
  lemma {:induction false} BorrowNextSub(x: Node, i: nat, t: nat)
    requires t >= 2 && Sub(x, t) && !x.leaf && i < |x.keys|
    requires |x.children[i + 1].keys| >= t && |x.children[i].keys| < t
    ensures Joinable(x.children[i], x.children[i + 1])
    ensures
      var r := BorrowFromNext(x, i);
      && Sub(r, t) && Height(r) == Height(x) && !r.leaf
      && |r.keys| == |x.keys| && |r.children[i].keys| == |x.children[i].keys| + 1
  {
    var c, s := x.children[i], x.children[i + 1];
    SiblingsJoinable(x, i, i + 1, t);
    var r := BorrowFromNext(x, i);
    var c', s' := r.children[i], r.children[i + 1];
    var h := Height(c);
    assert Height(c) + 1 == Height(x);
    if !c.leaf {
      var n := |c.children|;
      forall j | 0 <= j < |c'.children|
        ensures SubNonRoot(c'.children[j], t) && Height(c'.children[j]) == h - 1
      {
        if j == n { assert c'.children[j] == s.children[0]; }
        else { assert c'.children[j] == c.children[j]; }
      }
      SubIntro(c', t, h - 1);
      forall j | 0 <= j < |s'.children|
        ensures SubNonRoot(s'.children[j], t) && Height(s'.children[j]) == h - 1
      {
        assert s'.children[j] == s.children[j + 1];
      }
      SubIntro(s', t, h - 1);
    }
    forall j | 0 <= j < |r.children|
      ensures SubNonRoot(r.children[j], t) && Height(r.children[j]) == h
    {
      if j != i && j != i + 1 { assert r.children[j] == x.children[j]; }
    }
    SubIntro(r, t, h);
  }

  /**
   * Filling a child that has fewer than t keys keeps the node well formed and
   * as high, loses at most one key, and leaves the child the descent continues
   * at (child i, or child i-1 after a merge to the left) with at least t keys.
   * The node ends with fewer than i keys exactly when the fill merged to the
   * left, which happens only for the last child.
   */
  lemma {:induction false} FillChildSub(x: Node, i: nat, t: nat)
    requires t >= 2 && Sub(x, t) && !x.leaf && |x.keys| >= 1 && i < |x.children|
    requires |x.children[i].keys| < t
    ensures
      var r, d := FillChild(x, i, t), if FillMergesLeft(x, i, t) then i - 1 else i;
      && Sub(r, t) && Height(r) == Height(x) && !r.leaf
      && |x.keys| - 1 <= |r.keys| <= |x.keys|
      && ((|r.keys| < i) == FillMergesLeft(x, i, t))
      && (FillMergesLeft(x, i, t) ==> i == |x.keys| && i > 0)
      && d < |r.children| && d <= |r.keys| && |r.children[d].keys| >= t
  {
    if i != 0 && |x.children[i - 1].keys| >= t {
      BorrowPrevSub(x, i, t);
    } else if i != |x.keys| && |x.children[i + 1].keys| >= t {
      BorrowNextSub(x, i, t);
    } else if i != |x.keys| {
      MergeSub(x, i, t);
    } else {
      MergeSub(x, i - 1, t);
    }
  }

  /** r has x's in-order keys, and whatever lies left (right) of child d of r lay left (right) of child i of x. */
  ghost predicate KeptAround(x: Node, i: nat, r: Node, d: nat)
    requires InternalShape(x) && i < |x.children| && InternalShape(r) && d < |r.children|
  {
    && InOrder(r) == InOrder(x)
    && (forall e :: e in Before(r, d) ==> e in Before(x, i))
    && (forall e :: e in After(r, d) ==> e in After(x, i))
  }

  /** Borrowing from the left: the descent continues at child i. */
  lemma {:induction false} BorrowPrevKept(x: Node, i: nat)
    requires InternalShape(x) && 0 < i < |x.children| && Joinable(x.children[i], x.children[i - 1])
    requires |x.children[i - 1].keys| >= 1
    ensures InternalShape(BorrowFromPrev(x, i)) && KeptAround(x, i, BorrowFromPrev(x, i), i)
  {
    BorrowPrevPrefix(x, i);
    BorrowPrevInOrder(x, i);
  }

  /** Borrowing from the right: the descent continues at child i. */
  lemma {:induction false} BorrowNextKept(x: Node, i: nat)
    requires InternalShape(x) && i < |x.keys| && Joinable(x.children[i], x.children[i + 1])
    requires |x.children[i + 1].keys| >= 1
    ensures InternalShape(BorrowFromNext(x, i)) && KeptAround(x, i, BorrowFromNext(x, i), i)
  {
    BorrowNextInOrder(x, i);
  }

  /** Merging child i with its right sibling: the descent continues at the merged child i. */
  lemma {:induction false} MergeKept(x: Node, i: nat)
    requires InternalShape(x) && |x.keys| >= 1 && i < |x.keys| && Joinable(x.children[i], x.children[i + 1])
    ensures InternalShape(MergeChildren(x, i)) && KeptAround(x, i, MergeChildren(x, i), i)
  {
    MergeInOrder(x, i);
  }

  /** Merging the last child into its left sibling: the descent continues at the merged child i-1. */
  lemma {:induction false} MergeLeftKept(x: Node, i: nat)
    requires InternalShape(x) && 0 < i == |x.keys| && Joinable(x.children[i - 1], x.children[i])
    ensures InternalShape(MergeChildren(x, i - 1)) && KeptAround(x, i, MergeChildren(x, i - 1), i - 1)
  {
    MergeInOrder(x, i - 1);
    BeforeStep(x, i - 1);
  }

  /**
   * Filling keeps the node's in-order keys. Every key left of the child the
   * descent continues at was left of child i before, and every key right of
   * it was right of child i before.
   */
  lemma {:induction false} FillChildInOrder(x: Node, i: nat, t: nat)
    requires t >= 2 && Sub(x, t) && !x.leaf && |x.keys| >= 1 && i < |x.children|
    requires |x.children[i].keys| < t
    ensures
      var r, d := FillChild(x, i, t), if FillMergesLeft(x, i, t) then i - 1 else i;
      d < |r.children| && d <= |r.keys| && InternalShape(r)
    ensures
      var r, d := FillChild(x, i, t), if FillMergesLeft(x, i, t) then i - 1 else i;
      && InOrder(r) == InOrder(x)
      && (forall e :: e in Before(r, d) ==> e in Before(x, i))
      && (forall e :: e in After(r, d) ==> e in After(x, i))
  {
    FillChildSub(x, i, t);
    var r := FillChild(x, i, t);
    if i != 0 && |x.children[i - 1].keys| >= t {
      assert r == BorrowFromPrev(x, i) && !FillMergesLeft(x, i, t);
      SiblingsJoinable(x, i, i - 1, t);
      BorrowPrevKept(x, i);
    } else if i != |x.keys| && |x.children[i + 1].keys| >= t {
      assert r == BorrowFromNext(x, i) && !FillMergesLeft(x, i, t);
      SiblingsJoinable(x, i, i + 1, t);
      BorrowNextKept(x, i);
    } else if i != |x.keys| {
      assert r == MergeChildren(x, i) && !FillMergesLeft(x, i, t);
      SiblingsJoinable(x, i, i + 1, t);
      MergeKept(x, i);
    } else {
      assert r == MergeChildren(x, i - 1) && FillMergesLeft(x, i, t);
      SiblingsJoinable(x, i - 1, i, t);
      MergeLeftKept(x, i);
    }
  }
}
