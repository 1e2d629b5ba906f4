/**
 * Facts about sequences of integer keys: strict sortedness, sorted insertion
 * and removal of one key. These are the abstract effect of insert and delete
 * on the in-order key sequence of a B-tree.
 */
module KeySequences {

  /** Strictly increasing: sorted and without duplicates. */
  predicate Sorted(s: seq<int>)
  {
    forall i, j :: 0 <= i < j < |s| ==> s[i] < s[j]
  }

  /** Non-decreasing: every key is at most every later one (repeats allowed). */
  predicate NonDecreasing(s: seq<int>)
  {
    forall i, j :: 0 <= i < j < |s| ==> s[i] <= s[j]
  }

  /** Two non-decreasing pieces, the first not above the second, join to a non-decreasing sequence. */
  lemma NonDecreasingJoin(a: seq<int>, b: seq<int>)
    requires NonDecreasing(a) && NonDecreasing(b)
    requires forall x, y :: x in a && y in b ==> x <= y
    ensures NonDecreasing(a + b)
  {
    var s := a + b;
    forall i, j | 0 <= i < j < |s| ensures s[i] <= s[j] {
      if i < |a| && j >= |a| {
        assert s[i] in a && s[j] == b[j - |a|] && s[j] in b;
      } else if i >= |a| {
        assert s[i] == b[i - |a|] && s[j] == b[j - |a|];
      }
    }
  }

  /** `s` with `k` placed right after the elements that are not larger than it. */
  function InsertSorted(s: seq<int>, k: int): (r: seq<int>)
    ensures |r| == |s| + 1
  {
    if s == [] || k < s[0] then [k] + s
    else
      assert s == [s[0]] + s[1..];
      [s[0]] + InsertSorted(s[1..], k)
  }

  /** `s` without any occurrence of `k`. */
  function Remove(s: seq<int>, k: int): (r: seq<int>)
    ensures forall x :: x in r <==> x in s && x != k
    ensures |r| <= |s|
  {
    if s == [] then []
    else (if s[0] == k then [] else [s[0]]) + Remove(s[1..], k)
  }

  /** Sorted insertion adds one occurrence of k and nothing else. */
  lemma {:induction false} InsertSortedMultiset(s: seq<int>, k: int)
    ensures multiset(InsertSorted(s, k)) == multiset(s) + multiset{k}
    decreases |s|
  {
    if s != [] && k >= s[0] {
      assert s == [s[0]] + s[1..];
      InsertSortedMultiset(s[1..], k);
    }
  }

  lemma InsertSortedElements(s: seq<int>, k: int)
    ensures forall x :: x in InsertSorted(s, k) <==> x in s || x == k
  {
    var r := InsertSorted(s, k);
    InsertSortedMultiset(s, k);
    forall x ensures x in r <==> x in s || x == k {
      assert x in r <==> x in multiset(r);
      assert x in s <==> x in multiset(s);
    }
  }

  lemma {:induction false} SortedTail(s: seq<int>)
    requires Sorted(s) && s != []
    ensures Sorted(s[1..]) && forall x :: x in s[1..] ==> s[0] < x
  {
    forall x | x in s[1..] ensures s[0] < x {
      var j :| 0 <= j < |s[1..]| && s[1..][j] == x;
      assert s[j + 1] == x;
    }
  }

  lemma {:induction false} SortedCons(a: int, s: seq<int>)
    requires Sorted(s) && forall x :: x in s ==> a < x
    ensures Sorted([a] + s)
  {
    var r := [a] + s;
    forall i, j | 0 <= i < j < |r| ensures r[i] < r[j] {
      if i == 0 { assert r[j] == s[j - 1]; assert s[j - 1] in s; }
      else { assert r[i] == s[i - 1] && r[j] == s[j - 1]; }
    }
  }

  lemma {:induction false} InsertSortedKeepsSorted(s: seq<int>, k: int)
    requires Sorted(s) && k !in s
    ensures Sorted(InsertSorted(s, k))
    decreases |s|
  {
    if s == [] {
    } else if k < s[0] {
      forall x | x in s ensures k < x {
        var j :| 0 <= j < |s| && s[j] == x;
        if j > 0 { assert s[0] < s[j]; }
      }
      SortedCons(k, s);
    } else {
      SortedTail(s);
      InsertSortedKeepsSorted(s[1..], k);
      InsertSortedElements(s[1..], k);
      assert s[0] != k by { assert s[0] in s; }
      SortedCons(s[0], InsertSorted(s[1..], k));
    }
  }

  lemma {:induction false} RemoveKeepsSorted(s: seq<int>, k: int)
    requires Sorted(s)
    ensures Sorted(Remove(s, k))
    decreases |s|
  {
    if s != [] {
      SortedTail(s);
      RemoveKeepsSorted(s[1..], k);
      if s[0] != k {
        SortedCons(s[0], Remove(s[1..], k));
      }
    }
  }

  lemma {:induction false} RemoveAppend(a: seq<int>, b: seq<int>, k: int)
    ensures Remove(a + b, k) == Remove(a, k) + Remove(b, k)
    decreases |a|
  {
    if a == [] {
      assert a + b == b;
    } else {
      assert (a + b)[0] == a[0] && (a + b)[1..] == a[1..] + b;
      RemoveAppend(a[1..], b, k);
    }
  }

  lemma {:induction false} RemoveAbsent(s: seq<int>, k: int)
    requires k !in s
    ensures Remove(s, k) == s
    decreases |s|
  {
    if s != [] {
      assert s[0] != k;
      assert k !in s[1..];
      RemoveAbsent(s[1..], k);
    }
  }

  /** Removing a key that occurs only between a and b leaves a and b joined. */
  lemma {:induction false} RemoveOnce(a: seq<int>, k: int, b: seq<int>)
    requires k !in a && k !in b
    ensures Remove(a + [k] + b, k) == a + b
  {
    assert Remove([k], k) == [] by {
      assert [k][1..] == [];
    }
    RemoveAppend(a, [k], k);
    RemoveAbsent(a, k);
    assert Remove(a + [k], k) == a;
    RemoveAppend(a + [k], b, k);
    RemoveAbsent(b, k);
  }

  /** In a strictly increasing sequence a key occurs once, so removing it leaves what lay on either side. */
  lemma {:induction false} SortedSplitAt(a: seq<int>, k: int, b: seq<int>)
    requires Sorted(a + [k] + b)
    ensures k !in a && k !in b
    ensures Remove(a + [k] + b, k) == a + b
  {
    SortedParts(a, [k], b);
    assert k in [k];
    RemoveOnce(a, k, b);
  }

  /** Removing the last (largest) key of a sorted sequence drops just that key. */
  lemma {:induction false} RemoveLast(s: seq<int>)
    requires Sorted(s) && s != []
    ensures s == s[..|s| - 1] + [s[|s| - 1]]
    ensures Remove(s, s[|s| - 1]) == s[..|s| - 1]
  {
    var m, p := s[..|s| - 1], s[|s| - 1];
    assert s == m + [p] + [];
    SortedSplitAt(m, p, []);
    assert m + [] == m;
  }

  /** Removing the first (smallest) key of a sorted sequence drops just that key. */
  lemma {:induction false} RemoveFirst(s: seq<int>)
    requires Sorted(s) && s != []
    ensures s == [s[0]] + s[1..]
    ensures Remove(s, s[0]) == s[1..]
  {
    assert s == [] + [s[0]] + s[1..];
    SortedSplitAt([], s[0], s[1..]);
  }

  /** Removing a separator key from a sorted sequence of five pieces joins the pieces around it. */
  lemma {:induction false} RemoveSeparator(b: seq<int>, l: seq<int>, k: int, u: seq<int>, a: seq<int>)
    requires Sorted(b + l + [k] + u + a)
    ensures k !in b + l && k !in u + a
    ensures Remove(b + l + [k] + u + a, k) == b + l + u + a
  {
    assert b + l + [k] + u + a == (b + l) + [k] + (u + a);
    SortedSplitAt(b + l, k, u + a);
  }

  /** Inserting past a prefix of keys not larger than `k` leaves that prefix in front. */
  lemma {:induction false} InsertSortedAfter(a: seq<int>, s: seq<int>, k: int)
    requires forall j :: 0 <= j < |a| ==> a[j] <= k
    ensures InsertSorted(a + s, k) == a + InsertSorted(s, k)
    decreases |a|
  {
    if a != [] {
      assert (a + s)[0] == a[0] && (a + s)[1..] == a[1..] + s;
      assert forall j :: 0 <= j < |a[1..]| ==> a[1..][j] == a[j + 1];
      InsertSortedAfter(a[1..], s, k);
    } else {
      assert a + s == s;
    }
  }

  /** In a sorted sequence, putting k between the keys not larger than it and those larger is sorted insertion. */
  lemma {:induction false} InsertAt(s: seq<int>, i: nat, k: int)
    requires Sorted(s) && i <= |s|
    requires i > 0 ==> s[i - 1] <= k
    requires i < |s| ==> k < s[i]
    ensures s[..i] + [k] + s[i..] == InsertSorted(s, k)
  {
    var a, b := s[..i], s[i..];
    assert s == a + b;
    forall j | 0 <= j < |a| ensures a[j] <= k {
      if j < i - 1 { assert s[j] < s[i - 1]; }
    }
    InsertSortedAfter(a, b, k);
    assert InsertSorted(b, k) == [k] + b by {
      if b != [] { assert b[0] == s[i]; }
    }
  }

  /** Inserting before a suffix of keys larger than `k` leaves that suffix behind. */
  lemma {:induction false} InsertSortedBefore(s: seq<int>, b: seq<int>, k: int)
    requires forall x :: x in b ==> k < x
    ensures InsertSorted(s + b, k) == InsertSorted(s, k) + b
    decreases |s|
  {
    if s == [] {
      assert s + b == b;
      if b != [] { assert b[0] in b; }
    } else {
      var sb := s + b;
      assert sb[0] == s[0] && sb[1..] == s[1..] + b;
      if k < s[0] {
        assert InsertSorted(sb, k) == [k] + sb;
        assert InsertSorted(s, k) == [k] + s;
      } else {
        InsertSortedBefore(s[1..], b, k);
        var rest := InsertSorted(s[1..], k);
        assert InsertSorted(sb, k) == [s[0]] + (rest + b);
        assert InsertSorted(s, k) == [s[0]] + rest;
      }
    }
  }

  /** Inserting k into a middle piece that lies between keys below k and keys above it. */
  lemma InsertSortedBetween(a: seq<int>, m: seq<int>, b: seq<int>, k: int)
    requires forall e :: e in a ==> e < k
    requires forall e :: e in b ==> k < e
    ensures InsertSorted(a + m + b, k) == a + InsertSorted(m, k) + b
  {
    assert a + m + b == a + (m + b);
    forall j | 0 <= j < |a| ensures a[j] <= k {
      assert a[j] in a;
    }
    InsertSortedAfter(a, m + b, k);
    InsertSortedBefore(m, b, k);
    var r := InsertSorted(m, k);
    assert a + (r + b) == a + r + b;
  }

  /** A contiguous piece of a sorted sequence is sorted, and is ordered against the rest. */
  lemma SortedParts(a: seq<int>, b: seq<int>, c: seq<int>)
    requires Sorted(a + b + c)
    ensures Sorted(b)
    ensures forall x, y :: x in a && y in b ==> x < y
    ensures forall x, y :: x in b && y in c ==> x < y
    ensures forall x, y :: x in a && y in c ==> x < y
  {
    var s := a + b + c;
    forall i, j | 0 <= i < j < |b| ensures b[i] < b[j] {
      assert b[i] == s[|a| + i] && b[j] == s[|a| + j];
    }
    forall x, y | x in a && y in b ensures x < y {
      var i :| 0 <= i < |a| && a[i] == x;
      var j :| 0 <= j < |b| && b[j] == y;
      assert s[i] == x && s[|a| + j] == y;
    }
    forall x, y | x in b && y in c ensures x < y {
      var i :| 0 <= i < |b| && b[i] == x;
      var j :| 0 <= j < |c| && c[j] == y;
      assert s[|a| + i] == x && s[|a| + |b| + j] == y;
    }
    forall x, y | x in a && y in c ensures x < y {
      var i :| 0 <= i < |a| && a[i] == x;
      var j :| 0 <= j < |c| && c[j] == y;
      assert s[i] == x && s[|a| + |b| + j] == y;
    }
  }

  /** Three sorted pieces ordered against each other concatenate to a sorted sequence. */
  lemma SortedJoin(a: seq<int>, b: seq<int>, c: seq<int>)
    requires Sorted(a) && Sorted(b) && Sorted(c)
    requires forall x, y :: x in a && y in b ==> x < y
    requires forall x, y :: x in b && y in c ==> x < y
    requires forall x, y :: x in a && y in c ==> x < y
    ensures Sorted(a + b + c)
  {
    var s := a + b + c;
    forall i, j | 0 <= i < j < |s| ensures s[i] < s[j] {
      if j < |a| {
        assert s[i] == a[i] && s[j] == a[j];
      } else if j < |a| + |b| {
        if i < |a| { assert s[i] in a && s[j] in b; }
      } else {
        assert s[j] == c[j - |a| - |b|] && s[j] in c;
        if i < |a| { assert s[i] in a; }
        else if i < |a| + |b| { assert s[i] == b[i - |a|] && s[i] in b; }
      }
    }
  }

  /** Concatenation regrouped around a middle key. */
  lemma Regroup(b: seq<int>, l: seq<int>, m: int, z: seq<int>, a: seq<int>)
    ensures b + l + ([m] + z + a) == b + (l + [m] + z) + a
  {
  }

  /** A bracketed middle part flattened into the concatenation. */
  lemma RegroupFlat(b: seq<int>, l: seq<int>, m: int, z: seq<int>, a: seq<int>)
    ensures b + (l + [m] + z) + a == b + l + [m] + z + a
  {
  }
}
