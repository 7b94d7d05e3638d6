/** The reference meaning of "the value at rank k": sorted order of a
    multiset of samples, defined once by insertion and characterised by the
    uniqueness of sorted permutations. */
module Ordering {
  import opened Common

  ghost predicate Sorted(s: seq<u64>) {
    forall p, q :: 0 <= p < q < |s| ==> s[p] <= s[q]
  }

  ghost function Insert(x: u64, s: seq<u64>): seq<u64>
  {
    if s == [] || x <= s[0] then [x] + s else [s[0]] + Insert(x, s[1..])
  }

  /** The samples of s in non-decreasing order. */
  ghost function Sort(s: seq<u64>): seq<u64>
  {
    if s == [] then [] else Insert(s[0], Sort(s[1..]))
  }

  lemma {:induction false} InsertFacts(x: u64, s: seq<u64>)
    requires Sorted(s)
    ensures Sorted(Insert(x, s))
    ensures multiset(Insert(x, s)) == multiset(s) + multiset{x}
    ensures |Insert(x, s)| == |s| + 1
  {
    if s == [] || x <= s[0] {
      assert Insert(x, s) == [x] + s;
    } else {
      var t := s[1..];
      assert Sorted(t);
      InsertFacts(x, t);
      var r := Insert(x, t);
      assert s == [s[0]] + t;
      assert Insert(x, s) == [s[0]] + r;
      assert multiset(r) == multiset(t) + multiset{x};
      forall q | 0 <= q < |r| ensures s[0] <= r[q] {
        assert r[q] in multiset(r);
        if r[q] != x {
          assert r[q] in multiset(t);
          var k :| 0 <= k < |t| && t[k] == r[q];
          assert s[k + 1] == t[k];
        }
      }
      Cons(s[0], r);
    }
  }

  lemma Cons(h: u64, r: seq<u64>)
    requires Sorted(r)
    requires forall q :: 0 <= q < |r| ==> h <= r[q]
    ensures Sorted([h] + r)
  {
    var c := [h] + r;
    forall p, q | 0 <= p < q < |c| ensures c[p] <= c[q] {
      if p > 0 {
        assert c[p] == r[p - 1] && c[q] == r[q - 1];
      } else {
        assert c[q] == r[q - 1];
      }
    }
  }

  lemma {:induction false} InsertLength(x: u64, s: seq<u64>)
    ensures |Insert(x, s)| == |s| + 1
  {
    if s != [] && x > s[0] {
      InsertLength(x, s[1..]);
    }
  }

  lemma {:induction false} SortLength(s: seq<u64>)
    ensures |Sort(s)| == |s|
  {
    if s != [] {
      SortLength(s[1..]);
      InsertLength(s[0], Sort(s[1..]));
    }
  }

  /** Sort returns a sorted permutation of its argument. */
  lemma {:induction false} SortFacts(s: seq<u64>)
    ensures Sorted(Sort(s))
    ensures multiset(Sort(s)) == multiset(s)
    ensures |Sort(s)| == |s|
  {
    if s != [] {
      SortFacts(s[1..]);
      InsertFacts(s[0], Sort(s[1..]));
      assert s == [s[0]] + s[1..];
    }
  }

  /** The head of a non-empty sorted sequence is its least sample. */
  lemma HeadIsLeast(a: seq<u64>, v: u64)
    requires Sorted(a) && v in multiset(a)
    ensures a != [] && a[0] <= v
  {
    var k :| 0 <= k < |a| && a[k] == v;
  }

  lemma SplitHead(a: seq<u64>)
    requires a != []
    ensures multiset(a) == multiset{a[0]} + multiset(a[1..])
  {
    assert a == [a[0]] + a[1..];
  }

  /** Two sorted sequences holding the same multiset of samples are equal. */
  lemma {:induction false} SortedUnique(a: seq<u64>, b: seq<u64>)
    requires Sorted(a) && Sorted(b)
    requires multiset(a) == multiset(b)
    ensures a == b
  {
    if a == [] || b == [] {
      EmptyAlike(a, b);
    } else {
      SameHead(a, b);
      SameTail(a, b);
      TailSorted(a);
      TailSorted(b);
      SortedUnique(a[1..], b[1..]);
      assert a == [a[0]] + a[1..];
      assert b == [b[0]] + b[1..];
    }
  }

  lemma EmptyAlike(a: seq<u64>, b: seq<u64>)
    requires multiset(a) == multiset(b) && (a == [] || b == [])
    ensures a == [] && b == []
  {
    assert |a| == |multiset(a)| == |multiset(b)| == |b|;
  }

  /** Sorted sequences with the same samples start with the same sample. */
  lemma SameHead(a: seq<u64>, b: seq<u64>)
    requires Sorted(a) && Sorted(b) && a != [] && b != []
    requires multiset(a) == multiset(b)
    ensures a[0] == b[0]
  {
    assert b[0] in multiset(b) && a[0] in multiset(a);
    HeadIsLeast(a, b[0]);
    HeadIsLeast(b, a[0]);
  }

  lemma SameTail(a: seq<u64>, b: seq<u64>)
    requires a != [] && b != [] && a[0] == b[0]
    requires multiset(a) == multiset(b)
    ensures multiset(a[1..]) == multiset(b[1..])
  {
    SplitHead(a);
    SplitHead(b);
    assert multiset(a[1..]) == multiset(a) - multiset{a[0]};
    assert multiset(b[1..]) == multiset(b) - multiset{b[0]};
  }

  lemma TailSorted(a: seq<u64>)
    requires Sorted(a) && a != []
    ensures Sorted(a[1..])
  {
    forall p, q | 0 <= p < q < |a| - 1 ensures a[1..][p] <= a[1..][q] {
      assert a[1..][p] == a[p + 1] && a[1..][q] == a[q + 1];
    }
  }

  /** Sort depends only on the multiset of samples: order of arrival is irrelevant. */
  lemma SortOfPermutation(a: seq<u64>, b: seq<u64>)
    requires multiset(a) == multiset(b)
    ensures Sort(a) == Sort(b)
  {
    SortFacts(a);
    SortFacts(b);
    SortedUnique(Sort(a), Sort(b));
  }

  /** A sorted sequence is its own sort. */
  lemma SortOfSorted(s: seq<u64>)
    requires Sorted(s)
    ensures Sort(s) == s
  {
    SortFacts(s);
    SortedUnique(Sort(s), s);
  }

  /** If elements of a multiset are at most m, so are the elements of any
      sequence holding that multiset. */
  lemma BoundedByMultiset(a: seq<u64>, b: seq<u64>, m: u64, above: bool)
    requires multiset(a) == multiset(b)
    requires forall p :: 0 <= p < |a| ==> if above then a[p] >= m else a[p] <= m
    ensures forall q :: 0 <= q < |b| ==> if above then b[q] >= m else b[q] <= m
  {
    forall q | 0 <= q < |b| ensures if above then b[q] >= m else b[q] <= m {
      assert b[q] in multiset(a);
      var p :| 0 <= p < |a| && a[p] == b[q];
    }
  }

  /** The split law of selection: if x holds the samples of a sorted block y,
      and x is partitioned around position p (nothing larger before it,
      nothing smaller after it), then the sorted block has x[p] at position p
      and the same samples as x on each side of it. */
  lemma PartitionedBlock(x: seq<u64>, y: seq<u64>, p: int)
    requires Sorted(y) && multiset(x) == multiset(y)
    requires 0 <= p < |x|
    requires forall k :: 0 <= k < p ==> x[k] <= x[p]
    requires forall k :: p < k < |x| ==> x[p] <= x[k]
    ensures |y| == |x|
    ensures y[p] == x[p]
    ensures multiset(y[..p]) == multiset(x[..p])
    ensures multiset(y[p+1..]) == multiset(x[p+1..])
  {
    assert |y| == |multiset(y)| == |multiset(x)| == |x|;
    var lo, hi := Sort(x[..p]), Sort(x[p+1..]);
    PivotJoin(x, p);
    var z := lo + [x[p]] + hi;
    SortedUnique(z, y);
    SortFacts(x[..p]);
    SortFacts(x[p+1..]);
    assert y[..p] == lo;
    assert y[p+1..] == hi;
  }

  /** Sorting each side of a partitioned sequence and putting the pivot
      between them gives a sorted permutation of it. */
  lemma PivotJoin(x: seq<u64>, p: int)
    requires 0 <= p < |x|
    requires forall k :: 0 <= k < p ==> x[k] <= x[p]
    requires forall k :: p < k < |x| ==> x[p] <= x[k]
    ensures Sorted(Sort(x[..p]) + [x[p]] + Sort(x[p+1..]))
    ensures multiset(Sort(x[..p]) + [x[p]] + Sort(x[p+1..])) == multiset(x)
  {
    var lo, hi := Sort(x[..p]), Sort(x[p+1..]);
    SortFacts(x[..p]);
    SortFacts(x[p+1..]);
    BoundedByMultiset(x[..p], lo, x[p], false);
    BoundedByMultiset(x[p+1..], hi, x[p], true);
    JoinAround(lo, x[p], hi);
    ThreeParts(x, p);
  }

  lemma ThreeParts(x: seq<u64>, p: int)
    requires 0 <= p < |x|
    ensures multiset(x) == multiset(x[..p]) + multiset{x[p]} + multiset(x[p+1..])
  {
    assert x == x[..p] + [x[p]] + x[p+1..];
  }

  lemma JoinAround(lo: seq<u64>, m: u64, hi: seq<u64>)
    requires Sorted(lo) && Sorted(hi)
    requires forall k :: 0 <= k < |lo| ==> lo[k] <= m
    requires forall k :: 0 <= k < |hi| ==> m <= hi[k]
    ensures Sorted(lo + [m] + hi)
  {
    var z := lo + [m] + hi;
    forall a, b | 0 <= a < b < |z| ensures z[a] <= z[b] {
      if b < |lo| {
      } else if a < |lo| {
        assert z[a] == lo[a] <= m;
      } else if a > |lo| {
        assert z[b] == hi[b - |lo| - 1];
      }
    }
  }

  /** Two sequences with the same samples that agree outside [lo, hi) have
      the same samples inside it. */
  lemma SliceMultiset(a: seq<u64>, b: seq<u64>, lo: int, hi: int)
    requires |a| == |b| && 0 <= lo <= hi <= |a|
    requires multiset(a) == multiset(b)
    requires forall k :: 0 <= k < |a| && !(lo <= k < hi) ==> a[k] == b[k]
    ensures multiset(a[lo..hi]) == multiset(b[lo..hi])
  {
    var pa, ma, sa := a[..lo], a[lo..hi], a[hi..];
    var mb := b[lo..hi];
    assert a == pa + ma + sa;
    assert b == pa + mb + sa;
    calc {
      multiset(ma);
      multiset(pa + ma + sa) - multiset(pa) - multiset(sa);
      multiset(pa + mb + sa) - multiset(pa) - multiset(sa);
      multiset(mb);
    }
  }

  /** A sorted rearrangement of s is Sort(s), position by position. */
  lemma SortedIsSort(r: seq<u64>, s: seq<u64>, k: int)
    requires Sorted(r) && multiset(r) == multiset(s)
    requires 0 <= k < |r|
    ensures |Sort(s)| == |r| && r[k] == Sort(s)[k]
    ensures r[k] in s
  {
    SortOfSorted(r);
    SortOfPermutation(r, s);
    assert r[k] in multiset(r);
  }

  /** Filling the hole at p with the sample at q moves the hole to q
      without changing the samples held. */
  lemma MoveHole(s: seq<u64>, p: int, q: int, v: u64)
    requires 0 <= p < |s| && 0 <= q < |s|
    ensures multiset(s[p := s[q]][q := v]) == multiset(s[p := v])
  {
  }
}
