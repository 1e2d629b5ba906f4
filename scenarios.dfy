/**
 * Concrete trees of minimum degree 2 and 3 built by the operations, the
 * corrupted states the class invariant must reject, a correct delete that the
 * variant's simulated delete post-condition rejects, and the shape and refusal
 * scenarios of the repository's test suite replayed on the BTree class.
 */
module Scenarios {
  import opened Results
  import opened BTreeNodes
  import opened KeySequences
  import opened BTreeShape
  import opened BTreeSearch
  import opened BTreeInsert
  import opened BTreeMoves
  import opened BTreeDelete
  import opened BTreeChecks
  import opened BTrees
  import opened Trabalho

  /** A leaf holding the given keys. */
  function Leaf(keys: seq<int>): Node
  {
    Node(true, keys, [])
  }

  // ---------------------------------------------------------------------
  // Two general steps on a leaf root

  /** Inserting a key larger than every key of a leaf root that is not full appends it. */
  lemma InsertLargestIntoLeaf(root: Node, k: int, t: nat)
    requires t >= 2 && Sub(root, t) && root.leaf && |root.keys| < 2 * t - 1
    requires forall e :: e in root.keys ==> e < k
    ensures InsertTree(root, k, t) == root.(keys := root.keys + [k])
  {
    var n := |root.keys|;
    if n > 0 {
      assert root.keys[n - 1] in root.keys;
    }
    assert ChildIndex(root.keys, k) == n;
    assert root.keys[..n] + [k] + root.keys[n..] == root.keys + [k];
  }

  /** Deleting the first key of a leaf root drops it. */
  lemma DeleteFirstFromLeaf(root: Node, t: nat, guardLast: bool)
    requires t >= 2 && Sub(root, t) && root.leaf && root.keys != []
    ensures DeleteTree(root, root.keys[0], t, guardLast) == root.(keys := root.keys[1..])
  {
    var k := root.keys[0];
    assert FindIndex(root.keys, k) == 0;
    assert DeleteRec(root, k, t, guardLast) == root.(keys := root.keys[1..]);
  }

  // ---------------------------------------------------------------------
  // Minimum degree 3: the sixth insert splits the root

  const Five: Node := Leaf([10, 20, 30, 40, 50])

  /** Root [30] over leaves [10, 20] and [40, 50, 60]. */
  const SixSplit: Node := Node(false, [30], [Leaf([10, 20]), Leaf([40, 50, 60])])

  lemma SixSplitValid()
    ensures ValidTree(SixSplit, 3) && Height(SixSplit) == 1
    ensures InOrder(SixSplit) == [10, 20, 30, 40, 50, 60]
  {
    var a, b := SixSplit.children[0], SixSplit.children[1];
    assert Sub(a, 3) && Sub(b, 3);
    assert [a, b][1..] == [b] && [30][1..] == [];
    InterleaveSingle(b);
    assert InOrder(SixSplit) == InOrder(a) + [30] + Interleave([b], []);
  }

  /**
   * With t = 3 a leaf root with five keys is full: inserting 60 puts it under
   * a new root, splits it at its median 30, and 60 goes into the right half.
   */
  lemma SixthInsertSplitsRoot()
    ensures Sub(Five, 3) && |Five.keys| == 2 * 3 - 1 && InsertTree(Five, 60, 3) == SixSplit
  {
    FiveValid();
    GrowThenInsert(Five, 60, 3);
    assert Node(false, [Five.keys[2]], [Leaf(Five.keys[..2]), Leaf(Five.keys[3..])])
        == Node(false, [30], [Leaf([10, 20]), Leaf([40, 50])]) by {
      assert Five.keys[..2] == [10, 20] && Five.keys[3..] == [40, 50];
    }
    InsertRightOf30();
  }

  lemma FiveValid()
    ensures ValidTree(Five, 3) && InOrder(Five) == [10, 20, 30, 40, 50] && Height(Five) == 0
  {
    assert Sorted(Five.keys);
  }

  lemma InsertRightOf30()
    ensures Sub(Node(false, [30], [Leaf([10, 20]), Leaf([40, 50])]), 3)
    ensures InsertNonFull(Node(false, [30], [Leaf([10, 20]), Leaf([40, 50])]), 60, 3) == SixSplit
  {
    var x := Node(false, [30], [Leaf([10, 20]), Leaf([40, 50])]);
    assert Sub(x.children[0], 3) && Sub(x.children[1], 3);
    InsertRightOfRoot(30, [10, 20], [40, 50], 60, 3);
    assert ChildIndex([40, 50], 60) == 2;
    assert [40, 50][..2] + [60] + [40, 50][2..] == [40, 50, 60];
  }

  /** A full leaf root grows a level: the insert continues below the median with the two halves as children. */
  lemma GrowThenInsert(root: Node, k: int, t: nat)
    requires t >= 2 && Sub(root, t) && root.leaf && |root.keys| == 2 * t - 1
    ensures
      var x := Node(false, [root.keys[t - 1]], [Leaf(root.keys[..t - 1]), Leaf(root.keys[t..])]);
      Sub(x, t) && InsertTree(root, k, t) == InsertNonFull(x, k, t)
  {
    GrowRoot(root, t);
    GrowLeaf(root, t);
  }

  /** Splitting a full leaf root under a fresh root: the median alone on top, the halves below. */
  lemma GrowLeaf(root: Node, t: nat)
    requires t >= 2 && Sub(root, t) && root.leaf && |root.keys| == 2 * t - 1
    ensures Full(NewNode().(children := [root]).children[0], t)
    ensures SplitChild(NewNode().(children := [root]), 0, t)
         == Node(false, [root.keys[t - 1]], [Leaf(root.keys[..t - 1]), Leaf(root.keys[t..])])
  {
    var s := NewNode().(children := [root]);
    assert s.children[0] == root;
    assert s.keys[..0] + [root.keys[t - 1]] + s.keys[0..] == [root.keys[t - 1]];
    assert s.children[..0] + [LeftHalf(root, t), RightHalf(root, t)] + s.children[1..]
        == [LeftHalf(root, t), RightHalf(root, t)];
  }

  /** Below a root with one key over two leaves, a larger key goes into the right leaf when it is not full. */
  lemma InsertRightOfRoot(m: int, a: seq<int>, b: seq<int>, k: int, t: nat)
    requires t >= 2 && Sub(Node(false, [m], [Leaf(a), Leaf(b)]), t) && m < k && |b| < 2 * t - 1
    ensures
      var c := ChildIndex(b, k);
      InsertNonFull(Node(false, [m], [Leaf(a), Leaf(b)]), k, t) == Node(false, [m], [Leaf(a), Leaf(b[..c] + [k] + b[c..])])
  {
    var x := Node(false, [m], [Leaf(a), Leaf(b)]);
    assert ChildIndex([m], k) == 1;
    assert x.children[1] == Leaf(b);
    assert Descend(x, k, t) == (x, 1);
  }

  // ---------------------------------------------------------------------
  // Minimum degree 2

  /** Root [20] over leaves [10] and [30, 40]. */
  const Four: Node := Node(false, [20], [Leaf([10]), Leaf([30, 40])])

  /** Root [20] over leaves [10] and [30]. */
  const FourLess40: Node := Node(false, [20], [Leaf([10]), Leaf([30])])

  /** Root [30] over leaves [20] and [40]. */
  const FourLess10: Node := Node(false, [30], [Leaf([20]), Leaf([40])])

  lemma FourValid()
    ensures ValidTree(Four, 2) && InOrder(Four) == [10, 20, 30, 40] && Height(Four) == 1
  {
    var a, b := Four.children[0], Four.children[1];
    assert Sub(a, 2) && Sub(b, 2);
    assert [a, b][1..] == [b] && [20][1..] == [];
    InterleaveSingle(b);
    assert InOrder(Four) == InOrder(a) + [20] + Interleave([b], []);
  }

  lemma FourLess40Valid()
    ensures ValidTree(FourLess40, 2) && InOrder(FourLess40) == [10, 20, 30] && Height(FourLess40) == 1
  {
    var a, b := FourLess40.children[0], FourLess40.children[1];
    assert Sub(a, 2) && Sub(b, 2);
    assert [a, b][1..] == [b] && [20][1..] == [];
    InterleaveSingle(b);
    assert InOrder(FourLess40) == InOrder(a) + [20] + Interleave([b], []);
  }

  lemma FourLess10Valid()
    ensures ValidTree(FourLess10, 2) && InOrder(FourLess10) == [20, 30, 40] && Height(FourLess10) == 1
  {
    var a, b := FourLess10.children[0], FourLess10.children[1];
    assert Sub(a, 2) && Sub(b, 2);
    assert [a, b][1..] == [b] && [30][1..] == [];
    InterleaveSingle(b);
    assert InOrder(FourLess10) == InOrder(a) + [30] + Interleave([b], []);
  }

  /** With t = 2, inserting 40 into the full leaf root [10, 20, 30] splits it at 20. */
  lemma InsertSplitsThenAppends()
    ensures Sub(Leaf([10, 20, 30]), 2) && InsertTree(Leaf([10, 20, 30]), 40, 2) == Four
  {
    var root := Leaf([10, 20, 30]);
    GrowThenInsert(root, 40, 2);
    assert Node(false, [root.keys[1]], [Leaf(root.keys[..1]), Leaf(root.keys[2..])])
        == Node(false, [20], [Leaf([10]), Leaf([30])]) by {
      assert root.keys[..1] == [10] && root.keys[2..] == [30];
    }
    InsertRightOf20([30], 40);
    assert ChildIndex([30], 40) == 1;
    assert [30][..1] + [40] + [30][1..] == [30, 40];
  }

  /** Inserting 10 into the leaf root [20, 40] shifts both keys right. */
  lemma InsertShiftsLeaf()
    ensures Sub(Leaf([20, 40]), 2) && InsertTree(Leaf([20, 40]), 10, 2) == Leaf([10, 20, 40])
  {
    assert ChildIndex([20, 40], 10) == 0;
  }

  /** With t = 2, inserting 30 into the full leaf root [10, 20, 40] splits it at 20 and 30 goes before 40. */
  lemma InsertSplitsThenShifts()
    ensures Sub(Leaf([10, 20, 40]), 2) && InsertTree(Leaf([10, 20, 40]), 30, 2) == Four
  {
    var root := Leaf([10, 20, 40]);
    GrowThenInsert(root, 30, 2);
    assert Node(false, [root.keys[1]], [Leaf(root.keys[..1]), Leaf(root.keys[2..])])
        == Node(false, [20], [Leaf([10]), Leaf([40])]) by {
      assert root.keys[..1] == [10] && root.keys[2..] == [40];
    }
    InsertRightOf20([40], 30);
    assert ChildIndex([40], 30) == 0;
    assert [40][..0] + [30] + [40][0..] == [30, 40];
  }

  /** With t = 2, below root [20] over [10] and a one-key leaf b, a key above 20 goes into b. */
  lemma InsertRightOf20(b: seq<int>, k: int)
    requires |b| == 1 && 20 < k
    ensures Sub(Node(false, [20], [Leaf([10]), Leaf(b)]), 2)
    ensures
      var c := ChildIndex(b, k);
      InsertNonFull(Node(false, [20], [Leaf([10]), Leaf(b)]), k, 2) == Node(false, [20], [Leaf([10]), Leaf(b[..c] + [k] + b[c..])])
  {
    var x := Node(false, [20], [Leaf([10]), Leaf(b)]);
    assert Sub(x.children[0], 2) && Sub(x.children[1], 2);
    InsertRightOfRoot(20, [10], b, k, 2);
  }

  /** Deleting 40 from Four: the right leaf already holds t keys, so 40 goes without a fill. */
  lemma DeleteWithoutFill(guardLast: bool)
    ensures Sub(Four, 2) && DeleteTree(Four, 40, 2, guardLast) == FourLess40
  {
    FourValid();
    assert FindIndex([20], 40) == 1;
    assert FindIndex([30, 40], 40) == 1;
    assert Filled(Four, 1, 2) == Four;
    assert DescentIndex(1, true, 1, guardLast) == 1;
    assert DeleteRec(Four.children[1], 40, 2, guardLast) == FourLess40.children[1];
    assert DeleteRec(Four, 40, 2, guardLast) == FourLess40;
  }

  /**
   * Deleting 10 from Four: the left leaf has only t-1 keys, so it borrows
   * through the separator from its right sibling before 10 is removed; the
   * height stays 1 and the root becomes [30].
   */
  lemma DeleteBorrowsFromNext(guardLast: bool)
    ensures Sub(Four, 2) && DeleteTree(Four, 10, 2, guardLast) == FourLess10
    ensures Height(FourLess10) == Height(Four) && FourLess10.keys == [30]
  {
    DeleteBelowBorrowed(guardLast);
  }

  /** After the fill 10 is removed from the left leaf [10, 20]. */
  lemma DeleteBelowBorrowed(guardLast: bool)
    ensures Sub(Four, 2) && DeleteRec(Four, 10, 2, guardLast) == FourLess10
  {
    FillBorrowsFromNext();
    var x1 := Node(false, [30], [Leaf([10, 20]), Leaf([40])]);
    assert FindIndex([20], 10) == 0;
    assert DescentIndex(0, false, 1, guardLast) == 0;
    assert FindIndex([10, 20], 10) == 0;
    assert DeleteRec(x1.children[0], 10, 2, guardLast) == Leaf([20]);
    assert SetChild(x1, 0, Leaf([20])) == FourLess10;
  }

  /** Filling the left leaf of Four rotates 20 down into it and 30 up into the root. */
  lemma FillBorrowsFromNext()
    ensures Sub(Four, 2) && Filled(Four, 0, 2) == Node(false, [30], [Leaf([10, 20]), Leaf([40])])
  {
    FourValid();
    var x1 := Node(false, [30], [Leaf([10, 20]), Leaf([40])]);
    assert BorrowFromNext(Four, 0) == x1 by {
      assert [10] + [20] == [10, 20] && [30, 40][1..] == [40];
      assert [20][0 := 30] == [30];
      assert Four.children[0 := Leaf([10, 20])][1 := Leaf([40])] == x1.children;
    }
    assert FillChild(Four, 0, 2) == x1;
  }

  /**
   * Deleting 10 from FourLess40: both leaves have t-1 keys, so they merge
   * with the separator into [10, 20, 30]; the root is left without keys and
   * its only child becomes the root; the height drops to 0.
   */
  lemma DeleteMergesIntoRoot(guardLast: bool)
    ensures Sub(FourLess40, 2) && DeleteTree(FourLess40, 10, 2, guardLast) == Leaf([20, 30])
    ensures Height(Leaf([20, 30])) == Height(FourLess40) - 1
  {
    FillMerges();
    var x1 := Node(false, [], [Leaf([10, 20, 30])]);
    assert FindIndex([20], 10) == 0;
    assert DescentIndex(0, false, 0, guardLast) == 0;
    assert FindIndex([10, 20, 30], 10) == 0;
    assert DeleteRec(x1.children[0], 10, 2, guardLast) == Leaf([20, 30]);
    assert SetChild(x1, 0, Leaf([20, 30])) == Node(false, [], [Leaf([20, 30])]);
    assert DeleteRec(FourLess40, 10, 2, guardLast) == Node(false, [], [Leaf([20, 30])]);
  }

  /** Filling the left leaf of FourLess40 merges both leaves around 20, leaving the root without keys. */
  lemma FillMerges()
    ensures Sub(FourLess40, 2) && Filled(FourLess40, 0, 2) == Node(false, [], [Leaf([10, 20, 30])])
  {
    FourLess40Valid();
    var x1 := Node(false, [], [Leaf([10, 20, 30])]);
    assert MergeChildren(FourLess40, 0) == x1 by {
      assert [10] + [20] + [30] == [10, 20, 30];
      assert FourLess40.keys[..0] + FourLess40.keys[1..] == [];
      assert FourLess40.children[..0] + [Leaf([10, 20, 30])] + FourLess40.children[2..] == x1.children;
    }
    assert FillChild(FourLess40, 0, 2) == x1;
  }

  // ---------------------------------------------------------------------
  // Corrupted states

  /** A root leaf whose keys are out of order fails the class invariant. */
  lemma UnsortedRootFails()
    ensures !CheckAllInvariants(Leaf([20, 10]))
  {
    assert !NonDecreasing([20, 10]) by {
      assert [20, 10][0] > [20, 10][1];
    }
  }

  /**
   * SixSplit with its first child removed, as the corrupted-balance test
   * leaves it. In the source the invariant already returns false on the left
   * subtree, whose 40 is not below the separator 30; here the check also
   * fails because the separator has no right child. The count check fails
   * as well.
   */
  lemma MissingChildFails()
    ensures !CheckAllInvariants(Node(false, [30], [Leaf([40, 50, 60])]))
    ensures !CheckStructuralPostconditions(Node(false, [30], [Leaf([40, 50, 60])]), 3)
  {
    var n := Node(false, [30], [Leaf([40, 50, 60])]);
    assert !Separates(n, 0);
  }

  /**
   * The checks admit a repeated key: a leaf root [5, 5] passes both, but it
   * is not a valid tree, whose in-order keys increase strictly.
   */
  lemma RepeatedKeyPassesChecks()
    ensures CheckAllInvariants(Leaf([5, 5])) && CheckStructuralPostconditions(Leaf([5, 5]), 2)
    ensures !ValidTree(Leaf([5, 5]), 2)
  {
    assert GetAllLeafDepths(Leaf([5, 5])) == [0];
    assert DepthSet([0]) == {0};
    assert !Sorted([5, 5]) by {
      assert [5, 5][0] == [5, 5][1];
    }
  }

  /**
   * The delete post-condition as written rejects a correct delete: with
   * t = 2, inserting 10, 20, 30, 40 builds root [20] over leaves [10] and
   * [30, 40]; deleting 40 leaves root [20] over [10] and [30] and keeps the
   * height, although the root was internal with a single key.
   */
  lemma HackAsWrittenRejectsDelete()
    ensures ValidTree(Four, 2) && 40 in InOrder(Four)
    ensures DeleteTree(Four, 40, 2, false) == FourLess40 && ValidTree(FourLess40, 2)
    ensures Height(FourLess40) == Height(Four)
    ensures !HackAsWritten(Some(DeleteOp), DeleteState(Height(Four), |Four.keys|, Four.leaf), 2, Height(FourLess40))
  {
    FourValid();
    FourLess40Valid();
    DeleteWithoutFill(false);
  }

  // ---------------------------------------------------------------------
  // The test suite's scenarios on the BTree class

  /** A newly inserted key is found. */
  method InsertThenSearch() returns (found: bool)
    ensures found
  {
    var _, tree := BTree.Create(3);
    var out, h, n := tree.Insert(10);
    var r := tree.Search(10);
    found := r.Some?;
  }

  /** Inserting a key a second time is refused. */
  method DuplicateInsertRefused() returns (second: Outcome)
    ensures second == Fail(DuplicateKey)
  {
    var _, tree := BTree.Create(3);
    var first, h, n := tree.Insert(10);
    second, h, n := tree.Insert(10);
  }

  /** A deleted key is no longer found. */
  method DeleteThenSearch() returns (out: Outcome, found: bool)
    ensures out == Pass && !found
  {
    var _, tree := BTree.Create(3);
    var o, h, n := tree.Insert(10);
    var leaf;
    out, h, n, leaf := tree.Delete(10);
    var r := tree.Search(10);
    found := r.Some?;
  }

  /** Deleting a key that is not stored is refused. */
  method DeleteAbsentRefused() returns (out: Outcome)
    ensures out == Fail(KeyNotFound)
  {
    var _, tree := BTree.Create(3);
    var o, h, n := tree.Insert(10);
    var leaf;
    out, h, n, leaf := tree.Delete(99);
  }

  /** The keys 10, 20, ..., 10 * n. */
  function Tens(n: nat): (s: seq<int>)
    ensures |s| == n && forall j :: 0 <= j < n ==> s[j] == 10 * (j + 1)
  {
    if n == 0 then [] else Tens(n - 1) + [10 * n]
  }

  /** Insert keys 10, 20, ..., 10 * count in increasing order into an empty tree, while the root stays a leaf. */
  method FillLeafRoot(tree: BTree, count: nat)
    requires tree.Valid() && tree.root == Leaf([]) && count <= 2 * tree.t - 1
    modifies tree
    ensures tree.Valid() && tree.root == Leaf(Tens(count))
  {
    var i := 0;
    while i < count
      invariant 0 <= i <= count
      invariant tree.Valid() && tree.root == Leaf(Tens(i))
    {
      var k := 10 * (i + 1);
      assert forall e :: e in Tens(i) ==> e < k;
      InsertLargestIntoLeaf(tree.root, k, tree.t);
      InsertStep(tree, k, Leaf(Tens(i + 1)));
      i := i + 1;
    }
  }

  /**
   * With t = 3, five inserts keep a leaf root (height 0); the sixth splits
   * the root, raising the height to 1 with root keys [30].
   */
  method SixthInsertRaisesHeight() returns (heightBefore: nat, heightAfter: nat, rootKeys: seq<int>)
    ensures heightBefore == 0 && heightAfter == 1 && rootKeys == [30]
  {
    var _, tree := BTree.Create(3);
    assert tree.root == Leaf([]);
    FillLeafRoot(tree, 5);
    assert Tens(5) == [10, 20, 30, 40, 50];
    heightBefore := tree.GetHeight();
    SixthInsertSplitsRoot();
    var out, h, n := tree.Insert(60);
    heightAfter := tree.GetHeight();
    rootKeys := tree.root.keys;
  }

  /** With t = 3, two inserts leave the height at 0. */
  method TwoInsertsKeepHeight() returns (height: nat)
    ensures height == 0
  {
    var _, tree := BTree.Create(3);
    var o, h, n := tree.Insert(10);
    o, h, n := tree.Insert(20);
    height := tree.GetHeight();
  }

  /** One insert whose effect on the root is known. */
  method InsertStep(tree: BTree, k: int, after: Node)
    requires tree.Valid() && k !in InOrder(tree.root) && InsertTree(tree.root, k, tree.t) == after
    modifies tree
    ensures tree.Valid() && tree.root == after
  {
    var o, h, n := tree.Insert(k);
  }

  /** One delete whose effect on the root is known. */
  method DeleteStep(tree: BTree, k: int, after: Node)
    requires tree.Valid() && k in InOrder(tree.root) && DeleteTree(tree.root, k, tree.t, true) == after
    modifies tree
    ensures tree.Valid() && tree.root == after
  {
    var o, h, n, leaf := tree.Delete(k);
  }

  /** With t = 2, inserting 20, 40, 10, 30 into the empty tree builds Four. */
  method InsertUnordered(tree: BTree)
    requires tree.Valid() && tree.t == 2 && tree.root == Leaf([])
    modifies tree
    ensures tree.Valid() && tree.root == Four
  {
    InsertLargestIntoLeaf(Leaf([]), 20, 2);
    InsertStep(tree, 20, Leaf([20]));
    InsertLargestIntoLeaf(Leaf([20]), 40, 2);
    InsertStep(tree, 40, Leaf([20, 40]));
    InsertThenSplit(tree);
  }

  /** With t = 2, inserting 10 and then 30 into the leaf root [20, 40] builds Four. */
  method InsertThenSplit(tree: BTree)
    requires tree.Valid() && tree.t == 2 && tree.root == Leaf([20, 40])
    modifies tree
    ensures tree.Valid() && tree.root == Four
  {
    InsertShiftsLeaf();
    InsertStep(tree, 10, Leaf([10, 20, 40]));
    InsertSplitsThenShifts();
    InsertStep(tree, 30, Four);
  }

  /** With t = 2, inserting 10, 20, 30, 40 into the empty tree builds Four as well. */
  method InsertAscending(tree: BTree)
    requires tree.Valid() && tree.t == 2 && tree.root == Leaf([])
    modifies tree
    ensures tree.Valid() && tree.root == Four
  {
    FillLeafRoot(tree, 3);
    assert Tens(3) == [10, 20, 30];
    InsertSplitsThenAppends();
    InsertStep(tree, 40, Four);
  }

  /**
   * With t = 2, inserting 20, 40, 10, 30 builds Four; deleting 40 keeps the
   * height at 1; deleting 10 then merges the two leaves, and the height drops
   * to 0 with root keys [20, 30].
   */
  method MergeLowersHeight() returns (heightBetween: nat, heightAfter: nat, rootKeys: seq<int>)
    ensures heightBetween == 1 && heightAfter == 0 && rootKeys == [20, 30]
  {
    var _, tree := BTree.Create(2);
    assert tree.root == Leaf([]);
    InsertUnordered(tree);
    FourValid();
    DeleteWithoutFill(true);
    DeleteStep(tree, 40, FourLess40);
    heightBetween := tree.GetHeight();
    FourLess40Valid();
    DeleteMergesIntoRoot(true);
    DeleteStep(tree, 10, Leaf([20, 30]));
    heightAfter := tree.GetHeight();
    rootKeys := tree.root.keys;
  }

  /**
   * With t = 2, inserting 10, 20, 30, 40 builds Four (height 1); deleting 10
   * borrows from the right leaf, keeping the height at 1 with root keys [30].
   */
  method BorrowKeepsHeight() returns (heightBefore: nat, heightAfter: nat, rootKeys: seq<int>)
    ensures heightBefore == 1 && heightAfter == 1 && rootKeys == [30]
  {
    var _, tree := BTree.Create(2);
    assert tree.root == Leaf([]);
    InsertAscending(tree);
    FourValid();
    heightBefore := tree.GetHeight();
    DeleteBorrowsFromNext(true);
    DeleteStep(tree, 10, FourLess10);
    heightAfter := tree.GetHeight();
    rootKeys := tree.root.keys;
  }

  /** With t = 3, deleting every key of 10, 20, 30 leaves the empty leaf root of height 0. */
  method DeleteEverything() returns (rootKeys: seq<int>, rootIsLeaf: bool, height: nat)
    ensures rootKeys == [] && rootIsLeaf && height == 0
  {
    var _, tree := BTree.Create(3);
    assert tree.root == Leaf([]);
    FillLeafRoot(tree, 3);
    DrainLeafRoot(tree, Tens(3));
    rootKeys, rootIsLeaf := tree.root.keys, tree.root.leaf;
    height := tree.GetHeight();
  }

  /** Delete the keys of a leaf root from the first to the last: the empty leaf root remains. */
  method DrainLeafRoot(tree: BTree, keys: seq<int>)
    requires tree.Valid() && tree.root == Leaf(keys)
    modifies tree
    ensures tree.Valid() && tree.root == Leaf([])
  {
    var i := 0;
    while i < |keys|
      invariant 0 <= i <= |keys|
      invariant tree.Valid() && tree.root == Leaf(keys[i..])
    {
      DeleteFirstFromLeaf(tree.root, tree.t, true);
      assert keys[i..][1..] == keys[i + 1..];
      DeleteStep(tree, keys[i], Leaf(keys[i + 1..]));
      i := i + 1;
    }
  }

  lemma PrefixStep(s: seq<int>, i: nat)
    requires i < |s|
    ensures forall x :: x in s[..i + 1] <==> x in s[..i] || x == s[i]
  {
    assert s[..i + 1] == s[..i] + [s[i]];
  }

  /** Insert the keys in turn (refused duplicates included): afterwards exactly the old keys and these are stored. */
  method InsertAll(tree: BTree, keys: seq<int>)
    requires tree.Valid()
    modifies tree
    ensures tree.Valid() && forall x :: x in InOrder(tree.root) <==> x in old(InOrder(tree.root)) || x in keys
  {
    var i := 0;
    while i < |keys|
      invariant 0 <= i <= |keys|
      invariant tree.Valid() && forall x :: x in InOrder(tree.root) <==> x in old(InOrder(tree.root)) || x in keys[..i]
    {
      var o, h, n := tree.Insert(keys[i]);
      PrefixStep(keys, i);
      i := i + 1;
    }
    assert keys[..i] == keys;
  }

  /** Delete the keys in turn (refused absent keys included): afterwards exactly the old keys not among these are stored. */
  method DeleteAll(tree: BTree, keys: seq<int>)
    requires tree.Valid()
    modifies tree
    ensures tree.Valid() && forall x :: x in InOrder(tree.root) <==> x in old(InOrder(tree.root)) && x !in keys
  {
    var i := 0;
    while i < |keys|
      invariant 0 <= i <= |keys|
      invariant tree.Valid() && forall x :: x in InOrder(tree.root) <==> x in old(InOrder(tree.root)) && x !in keys[..i]
    {
      var o, h, n, leaf := tree.Delete(keys[i]);
      PrefixStep(keys, i);
      i := i + 1;
    }
    assert keys[..i] == keys;
  }

  /**
   * With t = 3, after inserting 50, 30, 70, 20, 40, 60, 80, 10, 25, 35, 45
   * and deleting 50, 40, 60, the key 30 is found and 50 is not.
   */
  method MixedScenario() returns (found30: bool, found50: bool)
    ensures found30 && !found50
  {
    var _, tree := BTree.Create(3);
    InsertAll(tree, [50, 30, 70, 20, 40, 60, 80, 10, 25, 35, 45]);
    assert 30 in InOrder(tree.root);
    DeleteAll(tree, [50, 40, 60]);
    assert 30 in InOrder(tree.root) && 50 !in InOrder(tree.root);
    var r30 := tree.Search(30);
    var r50 := tree.Search(50);
    found30, found50 := r30.Some?, r50.Some?;
  }
}
