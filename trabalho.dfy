/**
 * The single-file variant of the tree in trabalho.py. Its operations are
 * those of b_tree.py except for the index guard after a fill (modelled by
 * guardLast == false). Its insert and delete post-conditions are simulated
 * through the class invariant: each operation records its name and the
 * state before it, and the invariant check compares the tree afterwards
 * with that record and clears it.
 */
module Trabalho {
  import opened Results
  import opened BTreeNodes
  import opened KeySequences
  import opened BTreeShape
  import opened BTreeSearch
  import opened BTreeInsert
  import opened BTreeDelete
  import opened BTreeChecks

  /** The operation in progress. */
  datatype Operation = InsertOp | DeleteOp

  /** The state recorded when an operation starts; none between operations. */
  datatype SavedState =
    | NoState
    | InsertState(height: nat, rootKeysLen: nat)
    | DeleteState(height: nat, rootKeysLen: nat, rootIsLeaf: bool)

  /** The record matches the operation in progress. */
  predicate Recorded(op: Option<Operation>, state: SavedState)
  {
    match op
    case None => state.NoState?
    case Some(InsertOp) => state.InsertState?
    case Some(DeleteOp) => state.DeleteState?
  }

  /**
   * The simulated post-condition as written: after an insert into a full
   * root the height must have grown by one; after a delete from an internal
   * root with a single key the height must have dropped by one.
   */
  function HackAsWritten(op: Option<Operation>, state: SavedState, t: nat, heightNow: nat): bool
    requires Recorded(op, state)
  {
    match op
    case None => true
    case Some(InsertOp) => !(state.rootKeysLen == 2 * t - 1) || heightNow == state.height + 1
    case Some(DeleteOp) => !(state.rootKeysLen == 1 && !state.rootIsLeaf) || heightNow == state.height - 1
  }

  /**
   * The simulated post-condition as corrected: the delete case states the
   * post-condition of b_tree.py, that the height stays or drops by one and
   * drops only from an internal root with a single key.
   */
  function Hack(op: Option<Operation>, state: SavedState, t: nat, heightNow: nat): bool
    requires Recorded(op, state)
  {
    match op
    case None => true
    case Some(InsertOp) => !(state.rootKeysLen == 2 * t - 1) || heightNow == state.height + 1
    case Some(DeleteOp) =>
      && (heightNow == state.height || heightNow == state.height - 1)
      && (heightNow == state.height - 1 ==> state.rootKeysLen == 1 && !state.rootIsLeaf)
  }

  /** The simulated insert post-condition holds after every insert into a valid tree. */
  lemma InsertPassesHack(root: Node, k: int, t: nat)
    requires ValidTree(root, t) && k !in InOrder(root)
    ensures HackAsWritten(Some(InsertOp), InsertState(Height(root), |root.keys|), t, Height(InsertTree(root, k, t)))
    ensures Hack(Some(InsertOp), InsertState(Height(root), |root.keys|), t, Height(InsertTree(root, k, t)))
  {
    InsertTreeCorrect(root, k, t);
  }

  /** The corrected delete post-condition holds after every delete from a valid tree. */
  lemma DeletePassesHack(root: Node, k: int, t: nat)
    requires ValidTree(root, t)
    ensures Hack(Some(DeleteOp), DeleteState(Height(root), |root.keys|, root.leaf), t, Height(DeleteTree(root, k, t, false)))
  {
    DeleteTreeCorrect(root, k, t, false);
  }

  /** The tree of trabalho.py with its bookkeeping for the simulated post-conditions. */
  class TrabalhoTree {
    var root: Node
    const t: nat
    var opInProgress: Option<Operation>
    var stateBeforeOp: SavedState

    ghost predicate Valid()
      reads this
    {
      ValidTree(root, t) && Recorded(opInProgress, stateBeforeOp)
    }

    /** An empty tree with no operation in progress. */
    constructor (t: nat)
      requires t >= 2
      ensures Valid() && this.t == t && root == NewNode(true)
      ensures opInProgress == None && stateBeforeOp == NoState
    {
      this.t := t;
      root := NewNode(true);
      opInProgress := None;
      stateBeforeOp := NoState;
    }

    /** Construction refuses a minimum degree below 2. */
    static method Create(t: int) returns (out: Outcome, tree: TrabalhoTree?)
      ensures t < 2 ==> out == Fail(InvalidOrder) && tree == null
      ensures t >= 2 ==> out == Pass && tree != null && fresh(tree) && tree.Valid()
      ensures t >= 2 ==> tree != null && tree.t == t && tree.root == NewNode(true) && tree.opInProgress == None
    {
      if t < 2 {
        return Fail(InvalidOrder), null;
      }
      tree := new TrabalhoTree(t);
      out := Pass;
    }

    /**
     * Compare the tree with the state recorded before the operation in
     * progress, then clear the record.
     */
    method CheckPostconditionHack() returns (ok: bool)
      requires Valid()
      modifies this
      ensures ok == Hack(old(opInProgress), old(stateBeforeOp), t, Height(root))
      ensures root == old(root) && opInProgress == None && stateBeforeOp == NoState
    {
      if opInProgress == None {
        return true;
      }
      var op, state := opInProgress, stateBeforeOp;
      opInProgress, stateBeforeOp := None, NoState;
      var h := WalkHeight(root, t);
      ok := Hack(op, state, t, h);
    }

    /** The class invariant as checked after each public operation. */
    method CheckInvariant() returns (ok: bool)
      requires Valid()
      modifies this
      ensures ok == Hack(old(opInProgress), old(stateBeforeOp), t, Height(root))
      ensures root == old(root) && opInProgress == None && stateBeforeOp == NoState
    {
      ValidTreePassesChecks(root, t);
      ok := CheckAllInvariants(root);
      if ok {
        ok := CheckPostconditionHack();
      }
    }

    /** Insert k, recording the height and root size first; a key already present is refused. */
    method Insert(k: int) returns (out: Outcome)
      requires Valid()
      modifies this
      ensures Valid()
      ensures out == (if k in old(InOrder(root)) then Fail(DuplicateKey) else Pass)
      ensures out.Fail? ==> root == old(root) && opInProgress == old(opInProgress) && stateBeforeOp == old(stateBeforeOp)
      ensures out.Pass? ==> InOrder(root) == InsertSorted(old(InOrder(root)), k)
      ensures out.Pass? ==> root == InsertTree(old(root), k, t)
      ensures out.Pass? ==> opInProgress == Some(InsertOp)
      ensures out.Pass? ==> stateBeforeOp == InsertState(old(Height(root)), old(|root.keys|))
      ensures out.Pass? ==> CheckStructuralPostconditions(root, t)
    {
      var found := SearchNode(root, k);
      SearchFindsExactly(root, k, t);
      if found.Some? {
        return Fail(DuplicateKey);
      }
      var h := WalkHeight(root, t);
      var saved := InsertState(h, |root.keys|);
      InsertTreeCorrect(root, k, t);
      var r := InsertTree(root, k, t);
      ValidTreePassesChecks(r, t);
      opInProgress, stateBeforeOp := Some(InsertOp), saved;
      root := r;
      out := Pass;
    }

    /** Delete k, recording the height and root first; a key not present is refused. */
    method Delete(k: int) returns (out: Outcome)
      requires Valid()
      modifies this
      ensures Valid()
      ensures out == (if k in old(InOrder(root)) then Pass else Fail(KeyNotFound))
      ensures out.Fail? ==> root == old(root) && opInProgress == old(opInProgress) && stateBeforeOp == old(stateBeforeOp)
      ensures out.Pass? ==> InOrder(root) == Remove(old(InOrder(root)), k)
      ensures out.Pass? ==> opInProgress == Some(DeleteOp)
      ensures out.Pass? ==> stateBeforeOp == DeleteState(old(Height(root)), old(|root.keys|), old(root.leaf))
      ensures out.Pass? ==> root == DeleteTree(old(root), k, t, false)
      ensures out.Pass? ==> CheckStructuralPostconditions(root, t)
    {
      var found := SearchNode(root, k);
      SearchFindsExactly(root, k, t);
      if found.None? {
        return Fail(KeyNotFound);
      }
      var h := WalkHeight(root, t);
      opInProgress, stateBeforeOp := Some(DeleteOp), DeleteState(h, |root.keys|, root.leaf);
      DeleteTreeCorrect(root, k, t, false);
      root := DeleteTree(root, k, t, false);
      ValidTreePassesChecks(root, t);
      out := Pass;
    }

    /** An insert followed by the invariant check: a successful insert always passes it. */
    method InsertChecked(k: int) returns (out: Outcome, ok: bool)
      requires Valid() && opInProgress == None
      modifies this
      ensures Valid() && opInProgress == None
      ensures out.Pass? ==> ok
    {
      ghost var before := root;
      out := Insert(k);
      if out.Pass? {
        InsertPassesHack(before, k, t);
        ok := CheckInvariant();
      } else {
        ok := true;
      }
    }

    /** A delete followed by the invariant check: with the corrected hack a successful delete always passes it. */
    method DeleteChecked(k: int) returns (out: Outcome, ok: bool)
      requires Valid() && opInProgress == None
      modifies this
      ensures Valid() && opInProgress == None
      ensures out.Pass? ==> ok
    {
      ghost var before := root;
      out := Delete(k);
      if out.Pass? {
        DeletePassesHack(before, k, t);
        ok := CheckInvariant();
      } else {
        ok := true;
      }
    }
  }
}
