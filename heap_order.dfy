/**
 * The min-heap invariant over the populated prefix of the slot array, the
 * weakened forms of it that hold in the middle of a sift-up or a sift-down,
 * and the facts that make one step of either walk restore it.
 */
module HeapOrder {
  import opened Entries

  /** Java `/` on `int`: the quotient rounded toward zero, so `(0 - 1) / 2 == 0`. */
  function JavaDiv2(a: int): (q: int)
    ensures a >= 0 ==> 0 <= a - 2 * q <= 1
    ensures a < 0 ==> -1 <= a - 2 * q <= 0
  {
    if a >= 0 then a / 2 else -((-a) / 2)
  }

  /** Java's parent index of the root is the root itself; Dafny's `/` would give -1. */
  lemma JavaDivOfMinusOne()
    ensures JavaDiv2(0 - 1) == 0 && (0 - 1) / 2 == -1
  {
  }

  /** Parent slot of a non-root slot. */
  function Parent(i: nat): (p: nat)
    requires i > 0
    ensures p < i && (i == 2 * p + 1 || i == 2 * p + 2)
  {
    (i - 1) / 2
  }

  /** The edge from slot `i` up to its parent is in order. */
  ghost predicate EdgeOk(s: seq<Entry>, i: nat)
    requires 0 < i < |s|
  {
    Le(s[Parent(i)], s[i])
  }

  /** Every non-root slot is no smaller than its parent. */
  ghost predicate IsHeap(s: seq<Entry>)
  {
    forall i {:trigger EdgeOk(s, i)} :: 0 < i < |s| ==> EdgeOk(s, i)
  }

  /** The heap property as stated on children: each populated child is no smaller than its parent. */
  ghost predicate ChildrenOrdered(s: seq<Entry>)
  {
    forall i :: 0 <= i < |s| ==>
      (2 * i + 1 < |s| ==> Le(s[i], s[2 * i + 1])) &&
      (2 * i + 2 < |s| ==> Le(s[i], s[2 * i + 2]))
  }

  /** The parent-wise and the child-wise statements of the heap property agree. */
  lemma IsHeapIffChildrenOrdered(s: seq<Entry>)
    ensures IsHeap(s) <==> ChildrenOrdered(s)
  {
    if IsHeap(s) {
      forall i | 0 <= i < |s|
        ensures 2 * i + 1 < |s| ==> Le(s[i], s[2 * i + 1])
        ensures 2 * i + 2 < |s| ==> Le(s[i], s[2 * i + 2])
      {
        if 2 * i + 1 < |s| { assert Parent(2 * i + 1) == i && EdgeOk(s, 2 * i + 1); }
        if 2 * i + 2 < |s| { assert Parent(2 * i + 2) == i && EdgeOk(s, 2 * i + 2); }
      }
    }
    if ChildrenOrdered(s) {
      forall i | 0 < i < |s| ensures EdgeOk(s, i) {
        var p := Parent(i);
        assert 0 <= p < |s|;
      }
    }
  }

  /** In a heap the root is no larger than any populated slot. */
  lemma {:induction false} HeapRootIsMinimum(s: seq<Entry>, j: nat)
    requires IsHeap(s) && j < |s|
    ensures Le(s[0], s[j])
    decreases j
  {
    if j > 0 {
      HeapRootIsMinimum(s, Parent(j));
      assert EdgeOk(s, j);
      LeTransitive(s[0], s[Parent(j)], s[j]);
    }
  }

  /**
   * Stability: among entries of equal value, the root carries the smallest
   * sequence number, so the earliest insertion leaves first.
   */
  lemma HeapRootIsOldestOfItsValue(s: seq<Entry>, j: nat)
    requires IsHeap(s) && j < |s| && s[j].data == s[0].data
    ensures s[0].sequenceNumber <= s[j].sequenceNumber
  {
    HeapRootIsMinimum(s, j);
  }

  /** Mid-sift-up: every parent/child edge holds except the one into slot `k`. */
  ghost predicate HeapExceptAt(s: seq<Entry>, k: nat)
  {
    forall i {:trigger EdgeOk(s, i)} :: 0 < i < |s| && i != k ==> EdgeOk(s, i)
  }

  /** The parent of `k` is no larger than the populated children of `k`. */
  ghost predicate ParentBoundsChildren(s: seq<Entry>, k: nat)
  {
    0 < k < |s| ==>
      (2 * k + 1 < |s| ==> Le(s[Parent(k)], s[2 * k + 1])) &&
      (2 * k + 2 < |s| ==> Le(s[Parent(k)], s[2 * k + 2]))
  }

  /** Mid-sift-down: every parent/child edge holds except the ones out of slot `k`. */
  ghost predicate HeapExceptBelow(s: seq<Entry>, k: nat)
  {
    forall i {:trigger EdgeOk(s, i)} :: 0 < i < |s| && i != 2 * k + 1 && i != 2 * k + 2 ==> EdgeOk(s, i)
  }

  /** Slots `i` and `j` exchanged. */
  function Swapped(s: seq<Entry>, i: nat, j: nat): (t: seq<Entry>)
    requires i < |s| && j < |s|
    ensures |t| == |s| && t[i] == s[j] && t[j] == s[i]
    ensures forall m :: 0 <= m < |s| && m != i && m != j ==> t[m] == s[m]
  {
    s[i := s[j]][j := s[i]]
  }

  /** An exchange only permutes the slots. */
  lemma SwappedPermutes(s: seq<Entry>, i: nat, j: nat)
    requires i < |s| && j < |s|
    ensures multiset(Swapped(s, i, j)) == multiset(s)
  {
  }

  /**
   * Exchanging two slots of the window `s[lo..hi]` exchanges them in the
   * prefix `s[..hi]` and leaves the prefix `s[..lo]` as it was.
   */
  lemma SwappedWithin(s: seq<Entry>, i: nat, j: nat, lo: nat, hi: nat)
    requires lo <= i < hi && lo <= j < hi && hi <= |s|
    ensures Swapped(s, i, j)[..hi] == Swapped(s[..hi], i, j)
    ensures Swapped(s, i, j)[..lo] == s[..lo]
  {
  }

  /** Mid-sift-up at `k`: only the edge into `k` may be broken, and the parent of `k` bounds its children. */
  ghost predicate SiftUpReady(s: seq<Entry>, k: nat)
  {
    HeapExceptAt(s, k) && ParentBoundsChildren(s, k)
  }

  /** A heap with a new last slot is ready to sift that slot up. */
  lemma SiftUpStart(s: seq<Entry>)
    requires |s| > 0
    ensures IsHeap(s[..|s| - 1]) ==> SiftUpReady(s, |s| - 1)
  {
    if IsHeap(s[..|s| - 1]) {
      forall i | 0 < i < |s| && i != |s| - 1 ensures EdgeOk(s, i) {
        assert EdgeOk(s[..|s| - 1], i);
        assert s[..|s| - 1][i] == s[i] && s[..|s| - 1][Parent(i)] == s[Parent(i)];
      }
    }
  }

  /** One sift-up step: exchanging slot `k` with its larger parent moves the gap to the parent. */
  lemma SiftUpStep(s: seq<Entry>, k: nat)
    requires 0 < k < |s|
    requires CompareTo(s[Parent(k)], s[k]) > 0
    ensures SiftUpReady(s, k) ==> SiftUpReady(Swapped(s, k, Parent(k)), Parent(k))
  {
    if SiftUpReady(s, k) {
      var p := Parent(k);
      var t := Swapped(s, k, p);
      forall i | 0 < i < |t| && i != p ensures EdgeOk(t, i) {
        if i == k {
        } else if Parent(i) == k {
          assert Le(s[p], s[i]);
        } else if Parent(i) == p {
          assert EdgeOk(s, i);
          LeTransitive(s[k], s[p], s[i]);
        } else {
          assert EdgeOk(s, i);
        }
      }
      if 0 < p {
        assert EdgeOk(s, p);
        forall c | c == 2 * p + 1 || c == 2 * p + 2
          ensures c < |t| ==> Le(t[Parent(p)], t[c])
        {
          if c < |t| && c != k {
            assert Parent(c) == p && EdgeOk(s, c);
            LeTransitive(s[Parent(p)], s[p], s[c]);
          }
        }
      }
    }
  }

  /**
   * The result of sifting slot `k` of `s` up: while `k` is not the root and
   * its parent compares larger, exchange the two and continue at the parent.
   */
  function SiftedUp(s: seq<Entry>, k: nat): (r: seq<Entry>)
    requires k < |s|
    ensures |r| == |s|
    decreases k
  {
    if k > 0 && CompareTo(s[Parent(k)], s[k]) > 0 then SiftedUp(Swapped(s, k, Parent(k)), Parent(k))
    else s
  }

  /** Sift-up stops at the root or under a parent that is no larger: the heap is whole. */
  lemma SiftUpDone(s: seq<Entry>, k: nat)
    requires k < |s|
    requires k > 0 ==> Le(s[Parent(k)], s[k])
    ensures SiftUpReady(s, k) ==> IsHeap(s)
  {
    if SiftUpReady(s, k) {
      forall i | 0 < i < |s| ensures EdgeOk(s, i) {
      }
    }
  }

  /** Sifting up only permutes the slots. */
  lemma {:induction false} SiftedUpPermutes(s: seq<Entry>, k: nat)
    requires k < |s|
    ensures multiset(SiftedUp(s, k)) == multiset(s)
    decreases k
  {
    if k > 0 && CompareTo(s[Parent(k)], s[k]) > 0 {
      SwappedPermutes(s, k, Parent(k));
      SiftedUpPermutes(Swapped(s, k, Parent(k)), Parent(k));
    }
  }

  /**
   * Sifting up a slot that is the only break in the heap order yields a
   * heap; in particular, sifting up the new last slot of a heap does.
   */
  lemma {:induction false} SiftedUpIsHeap(s: seq<Entry>, k: nat)
    requires k < |s| && SiftUpReady(s, k)
    ensures IsHeap(SiftedUp(s, k))
    decreases k
  {
    if k > 0 && CompareTo(s[Parent(k)], s[k]) > 0 {
      SiftUpStep(s, k);
      SiftedUpIsHeap(Swapped(s, k, Parent(k)), Parent(k));
    } else {
      if k > 0 { LeTotal(s[Parent(k)], s[k]); }
      SiftUpDone(s, k);
    }
  }

  /** Replacing the root of a heap (and dropping the last slot) leaves a heap except below the root. */
  lemma SiftDownStartAtRoot(s: seq<Entry>, t: seq<Entry>)
    requires IsHeap(s) && 0 < |t| <= |s|
    requires forall m :: 0 < m < |t| ==> t[m] == s[m]
    ensures HeapExceptBelow(t, 0)
  {
    forall i | 0 < i < |t| && i != 1 && i != 2 ensures EdgeOk(t, i) {
      assert EdgeOk(s, i);
    }
  }

  /** Mid-sift-down at `k`: only the edges out of `k` may be broken, and the parent of `k` bounds its children. */
  ghost predicate SiftDownReady(s: seq<Entry>, k: nat)
  {
    HeapExceptBelow(s, k) && ParentBoundsChildren(s, k)
  }

  /** Slot `m` holds the least of slot `k` and its populated children. */
  ghost predicate SmallestOfFamily(s: seq<Entry>, k: nat, m: nat)
  {
    (m == k || (m < |s| && (m == 2 * k + 1 || m == 2 * k + 2))) &&
    (k < |s| ==> Le(s[m], s[k])) &&
    (2 * k + 1 < |s| ==> Le(s[m], s[2 * k + 1])) &&
    (2 * k + 2 < |s| ==> Le(s[m], s[2 * k + 2]))
  }

  /**
   * One sift-down step: when slot `m`, a child of `k`, is the least of `k`
   * and its children, exchanging the two moves the gap down to `m`.
   */
  lemma SiftDownStep(s: seq<Entry>, k: nat, m: nat)
    requires k != m && SmallestOfFamily(s, k, m)
    ensures k < |s| && m < |s|
    ensures SiftDownReady(s, k) ==> SiftDownReady(Swapped(s, k, m), m)
  {
    if SiftDownReady(s, k) {
      var t := Swapped(s, k, m);
      assert Parent(m) == k;
      forall i | 0 < i < |t| && i != 2 * m + 1 && i != 2 * m + 2 ensures EdgeOk(t, i) {
        if i == m {
        } else if i == 2 * k + 1 || i == 2 * k + 2 {
          assert Parent(i) == k;
        } else if i == k {
          assert Le(s[Parent(k)], s[m]);
        } else {
          assert EdgeOk(s, i);
        }
      }
      forall c | c == 2 * m + 1 || c == 2 * m + 2 ensures c < |t| ==> Le(t[Parent(m)], t[c]) {
        if c < |t| {
          assert Parent(c) == m && EdgeOk(s, c);
        }
      }
    }
  }

  /** Sift-down stops when no child is smaller: the heap is whole. */
  lemma SiftDownDone(s: seq<Entry>, k: nat)
    requires SmallestOfFamily(s, k, k)
    ensures SiftDownReady(s, k) ==> IsHeap(s)
  {
    if SiftDownReady(s, k) {
      forall i | 0 < i < |s| ensures EdgeOk(s, i) {
        if i == 2 * k + 1 || i == 2 * k + 2 {
          assert Parent(i) == k;
        }
      }
    }
  }
}
