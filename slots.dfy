/**
 * Facts about the populated slots as a multiset of entries: what removing a
 * slot by moving the last one into it does, what removing every entry of a
 * value leaves, and the bookkeeping of sequence numbers.
 */
module Slots {
  import opened Entries

  /** The entries of `s` whose value is not `x`, in order. */
  function WithoutValue(s: seq<Entry>, x: int): (r: seq<Entry>)
    ensures |r| <= |s|
    ensures forall e :: e in r <==> e in s && e.data != x
  {
    if s == [] then []
    else if s[0].data == x then WithoutValue(s[1..], x)
    else [s[0]] + WithoutValue(s[1..], x)
  }

  /** Removing every entry of value `x` keeps each other entry's multiplicity and drops all of `x`'s. */
  lemma {:induction false} WithoutValueCount(s: seq<Entry>, x: int, e: Entry)
    ensures multiset(WithoutValue(s, x))[e] == if e.data == x then 0 else multiset(s)[e]
  {
    if s != [] {
      WithoutValueCount(s[1..], x, e);
      assert s == [s[0]] + s[1..];
    }
  }

  /** Removing every entry of value `x` shortens `s` exactly when `s` holds such an entry. */
  lemma {:induction false} WithoutValueShorter(s: seq<Entry>, x: int)
    ensures |WithoutValue(s, x)| < |s| <==> exists i :: 0 <= i < |s| && s[i].data == x
  {
    if s != [] {
      WithoutValueShorter(s[1..], x);
      if s[0].data != x {
        if exists i :: 0 <= i < |s| && s[i].data == x {
          var i :| 0 <= i < |s| && s[i].data == x;
          assert s[1..][i - 1].data == x;
        }
      }
    }
  }

  /** No slot of `s` holds the value `x`. */
  predicate NoValue(s: seq<Entry>, x: int)
  {
    forall i :: 0 <= i < |s| ==> s[i].data != x
  }

  /** A prefix free of `x` stays free of it when the next slot is not `x`. */
  lemma NoValueExtend(a: seq<Entry>, i: nat, x: int)
    requires i < |a| && NoValue(a[..i], x) && a[i].data != x
    ensures NoValue(a[..i + 1], x)
  {
    assert forall k :: 0 <= k < i ==> a[..i + 1][k] == a[..i][k];
  }

  /** A sequence without an entry of value `x` is left as it is. */
  lemma {:induction false} WithoutValueNoMatch(s: seq<Entry>, x: int)
    requires NoValue(s, x)
    ensures WithoutValue(s, x) == s
  {
    if s != [] {
      WithoutValueNoMatch(s[1..], x);
      assert s == [s[0]] + s[1..];
    }
  }

  /**
   * Overwriting slot `i` of the prefix `s[..n]` with its last slot and then
   * shrinking the prefix by one removes exactly the entry that was at `i`.
   */
  lemma MoveLastInto(s: seq<Entry>, i: nat, n: nat)
    requires i < n <= |s|
    ensures multiset(s[i := s[n - 1]][..n - 1]) == multiset(s[..n]) - multiset{s[i]}
  {
    var t := s[..n];
    assert t == t[..n - 1] + [t[n - 1]];
    if i == n - 1 {
      assert s[i := s[n - 1]] == s;
      assert t[..n - 1] == s[..n - 1];
    } else {
      assert s[i := s[n - 1]][..n - 1] == t[..n - 1][i := t[n - 1]];
    }
  }

  /** Writing the slot just past the prefix `s[..n]` extends the prefix by that entry. */
  lemma AppendInto(s: seq<Entry>, n: nat, e: Entry)
    requires n < |s|
    ensures s[n := e][..n] == s[..n] && s[n := e][..n + 1] == s[..n] + [e]
  {
  }

  /** Sequences that agree on a prefix agree on every shorter prefix. */
  lemma PrefixAgrees(a: seq<Entry>, b: seq<Entry>, p: nat, c: nat)
    requires p <= c <= |a| && c <= |b| && a[..c] == b[..c]
    ensures a[..p] == b[..p]
  {
    assert a[..p] == a[..c][..p];
    assert b[..p] == b[..c][..p];
  }

  /** `m` and `k` hold every entry whose value is not `x` equally often. */
  ghost predicate SameOffValue(m: multiset<Entry>, k: multiset<Entry>, x: int)
  {
    forall e: Entry :: e.data != x ==> m[e] == k[e]
  }

  /** Taking out one entry of value `x` does not disturb the other entries. */
  lemma SameOffValueRemove(m: multiset<Entry>, k: multiset<Entry>, x: int, d: Entry)
    requires SameOffValue(m, k, x) && d.data == x
    ensures SameOffValue(m - multiset{d}, k, x)
  {
  }

  /**
   * Removing every entry of value `x` is what a filter does: a sequence
   * with no `x` left that agrees with `o` on every other entry holds exactly
   * the entries of `o` without those of value `x`.
   */
  lemma RemovedValueIsFilter(o: seq<Entry>, live: seq<Entry>, x: int)
    requires NoValue(live, x) && SameOffValue(multiset(live), multiset(o), x)
    ensures multiset(live) == multiset(WithoutValue(o, x))
  {
    forall e ensures multiset(live)[e] == multiset(WithoutValue(o, x))[e] {
      WithoutValueCount(o, x, e);
      if e.data == x {
        assert e !in live;
      }
    }
  }

  /** Conversely, the filter itself holds no `x` and agrees with `o` on every other entry. */
  lemma FilterIsRemovedValue(o: seq<Entry>, x: int)
    ensures NoValue(WithoutValue(o, x), x)
    ensures SameOffValue(multiset(WithoutValue(o, x)), multiset(o), x)
  {
    forall e: Entry | e.data != x ensures multiset(WithoutValue(o, x))[e] == multiset(o)[e] {
      WithoutValueCount(o, x, e);
    }
  }

  /**
   * The end of a scan for `x` over `o`: what is left holds no `x` and agrees
   * with `o` on every other entry, so it is shorter than `o` exactly when
   * `o` held an `x`, and it keeps the bookkeeping of sequence numbers.
   */
  lemma ScanRemovedValue(o: seq<Entry>, live: seq<Entry>, x: int, bound: nat)
    requires NoValue(live, x) && SameOffValue(multiset(live), multiset(o), x)
    requires SeqsBelow(multiset(o), bound) && UniqueSeqs(multiset(o))
    ensures |live| < |o| <==> exists i :: 0 <= i < |o| && o[i].data == x
    ensures SeqsBelow(multiset(live), bound) && UniqueSeqs(multiset(live))
  {
    RemovedValueIsFilter(o, live, x);
    forall e ensures multiset(live)[e] <= multiset(o)[e] {
      WithoutValueCount(o, x, e);
    }
    WithoutValueShorter(o, x);
    assert |live| == |multiset(WithoutValue(o, x))| == |WithoutValue(o, x)|;
    SubMultiset(multiset(o), multiset(live), bound);
  }

  /** Every entry carries a sequence number below `bound`. */
  ghost predicate SeqsBelow(m: multiset<Entry>, bound: nat)
  {
    forall e :: e in m ==> e.sequenceNumber < bound
  }

  /** Two entries carry the same sequence number. */
  predicate SameSeq(e: Entry, f: Entry)
  {
    e.sequenceNumber == f.sequenceNumber
  }

  /** No entry occurs twice and no sequence number is shared by two entries. */
  ghost predicate UniqueSeqs(m: multiset<Entry>)
  {
    (forall e :: m[e] <= 1) &&
    (forall e, f {:trigger SameSeq(e, f)} :: m[e] > 0 && m[f] > 0 && SameSeq(e, f) ==> e == f)
  }

  /** Adding an entry with a fresh sequence number keeps sequence numbers unique and bounded. */
  lemma AddFresh(m: multiset<Entry>, bound: nat, e: Entry)
    requires SeqsBelow(m, bound) && UniqueSeqs(m) && e.sequenceNumber == bound
    ensures SeqsBelow(m + multiset{e}, bound + 1) && UniqueSeqs(m + multiset{e})
  {
    assert e !in m;
  }

  /** Sequence-number bookkeeping survives removing entries. */
  lemma SubMultiset(m: multiset<Entry>, m': multiset<Entry>, bound: nat)
    requires m' <= m && SeqsBelow(m, bound) && UniqueSeqs(m)
    ensures SeqsBelow(m', bound) && UniqueSeqs(m')
  {
    forall e ensures m'[e] <= 1 {
      assert m'[e] <= m[e];
    }
  }

  /** In a sequence with unique sequence numbers, distinct positions hold distinct entries. */
  lemma DistinctSlots(s: seq<Entry>, i: nat, j: nat)
    requires i < j < |s| && UniqueSeqs(multiset(s))
    ensures s[i] != s[j]
  {
    var front, back := s[..j], s[j..];
    assert s == front + back;
    assert front[i] == s[i] && back[0] == s[j];
    assert multiset(s)[s[i]] == multiset(front)[s[i]] + multiset(back)[s[i]];
  }
}
