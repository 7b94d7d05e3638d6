/** The counters of the simple perf-counter provider: the percentile counter
    (a ring buffer of samples and a multi-rank median-of-medians selection
    over a snapshot of it), the number counter, and the dispatcher that picks
    one of them from the counter type. */
module SimplePerfCounter {
  import opened Common
  import opened Ordering
  import opened Selection

  /** Capacity of the sample ring (MAX_QUEUE_LENGTH). */
  const MaxQueueLength: int := 50000

  /** The percentile of each tag p50, p90, p95, p99, p999 in thousandths. */
  const Permille: seq<int> := [500, 900, 950, 990, 999]

  /** The 1-based rank that calc asks for tag t over n samples: floor(n * p) + 1. */
  function Rank(n: nat, t: int): (r: int)
    requires 0 <= t < TagCount
    ensures n >= 1 ==> 1 <= r <= n
  {
    RankBelow(n, Permille[t]);
    n * Permille[t] / 1000 + 1
  }

  lemma RankBelow(n: nat, p: int)
    requires 0 <= p < 1000
    ensures n >= 1 ==> n * p / 1000 < n
  {
    if n >= 1 {
      assert n * p <= n * 999;
      DivBelow(n * p, n);
    }
  }

  /** The ranks of the five tags over n samples. */
  function Ranks(n: nat): (R: seq<int>)
    ensures |R| == TagCount && forall t :: 0 <= t < TagCount ==> R[t] == Rank(n, t)
  {
    [Rank(n, 0), Rank(n, 1), Rank(n, 2), Rank(n, 3), Rank(n, 4)]
  }

  /** Over at least one sample, every target rank is a position of the
      snapshot, and the ranks never decrease from p50 to p999: the
      worklist relies on this order of the tags. */
  lemma RanksInRange(n: nat)
    requires n >= 1
    ensures forall t :: 0 <= t < TagCount ==> 1 <= Rank(n, t) <= n
    ensures forall t1, t2 :: 0 <= t1 <= t2 < TagCount ==> Rank(n, t1) <= Rank(n, t2)
  {
    assert n * 500 <= n * 900 <= n * 950 <= n * 990 <= n * 999 < n * 1000;
    DivMonotone(n * 500, n * 900);
    DivMonotone(n * 900, n * 950);
    DivMonotone(n * 950, n * 990);
    DivMonotone(n * 990, n * 999);
    DivBelow(n * 999, n);
    forall t | 0 <= t < TagCount ensures 1 <= Rank(n, t) <= n {
      DivMonotone(n * Permille[t], n * 999);
    }
  }

  lemma DivMonotone(a: nat, b: nat)
    requires a <= b
    ensures a / 1000 <= b / 1000
  {
  }

  lemma DivBelow(a: nat, n: nat)
    requires a < n * 1000
    ensures a / 1000 < n
  {
  }

  /** The worklist calc starts from, over the snapshot snap, is sound. */
  lemma StartWorklist(q: seq<Task>, tmp: seq<u64>, ask: seq<u64>, ans: seq<u64>, snap: seq<u64>, owner: seq<int>)
    requires 1 <= |snap| <= |tmp| && tmp[..|snap|] == snap
    requires q == [Task(0, |snap| - 1, 0, TagCount - 1)]
    requires |ask| == |ans| == TagCount && owner == seq(TagCount, t => 0)
    requires forall t :: 0 <= t < TagCount ==> ask[t] as int == Rank(|snap|, t)
    ensures Worklist(q, 0, owner, tmp, ask, ans, Sort(snap), Ranks(|snap|))
    ensures forall t1, t2 :: 0 <= t1 <= t2 < TagCount ==> Ranks(|snap|)[t1] <= Ranks(|snap|)[t2]
  {
    var n, R := |snap|, Ranks(|snap|);
    SortFacts(snap);
    RanksInRange(n);
    forall t | 0 <= t < TagCount ensures 1 <= R[t] <= n && ask[t] as int == R[t] && owner[t] == 0 {
      assert R[t] == Rank(n, t);
    }
    InitialWorklist(q, tmp, ask, ans, snap, Sort(snap), R, owner);
    forall t1, t2 | 0 <= t1 <= t2 < TagCount ensures R[t1] <= R[t2] {
      assert R[t1] == Rank(n, t1) && R[t2] == Rank(n, t2);
    }
  }

  /** Once the worklist over the snapshot snap is drained, ans holds the
      percentiles of snap. */
  lemma FinishWorklist(q: seq<Task>, owner: seq<int>, tmp: seq<u64>, ask: seq<u64>, ans: seq<u64>, snap: seq<u64>)
    requires |snap| >= 1
    requires Worklist(q, |q|, owner, tmp, ask, ans, Sort(snap), Ranks(|snap|))
    ensures Reports(ans, snap)
  {
    Drained(q, owner, tmp, ask, ans, Sort(snap), Ranks(|snap|));
    forall t | 0 <= t < TagCount ensures ans[t] == PercentileOf(snap, t) {
      PercentileAtRank(snap, t);
    }
  }

  lemma PercentileAtRank(s: seq<u64>, t: int)
    requires |s| >= 1 && 0 <= t < TagCount
    ensures |Sort(s)| == |s| && PercentileOf(s, t) == Sort(s)[Ranks(|s|)[t] - 1]
  {
    SortLength(s);
  }

  /** The ring invariant over values: for each of the last MAX_QUEUE_LENGTH
      writes h of hist, slot h mod MAX_QUEUE_LENGTH of qs holds it. */
  ghost predicate RingOf(qs: seq<u64>, hist: seq<u64>) {
    && |qs| == MaxQueueLength
    && forall h :: 0 <= h < |hist| && |hist| - MaxQueueLength <= h ==> qs[h % MaxQueueLength] == hist[h]
  }

  /** Before the ring wraps, its first slots hold the samples in arrival order. */
  lemma RingNotWrapped(qs: seq<u64>, hist: seq<u64>)
    requires RingOf(qs, hist) && |hist| <= MaxQueueLength
    ensures qs[..|hist|] == hist
  {
    forall s | 0 <= s < |hist| ensures qs[s] == hist[s] {
      SlotOf(0, s);
    }
  }

  /** Once the ring has wrapped, it holds the last MAX_QUEUE_LENGTH samples
      rotated: the r newest ones first, then the older ones. */
  lemma RingRotated(qs: seq<u64>, hist: seq<u64>)
    requires RingOf(qs, hist) && |hist| > MaxQueueLength
    ensures var base := |hist| - MaxQueueLength; var r := base % MaxQueueLength;
      qs == hist[|hist| - r..] + hist[base..|hist| - r]
  {
    var base := |hist| - MaxQueueLength;
    var r := base % MaxQueueLength;
    var k := base / MaxQueueLength;
    assert base == MaxQueueLength * k + r;
    var newer := hist[|hist| - r..];
    var older := hist[base..|hist| - r];
    forall s | 0 <= s < MaxQueueLength ensures qs[s] == (newer + older)[s] {
      if s < r {
        SlotOf(k + 1, s);
        assert (newer + older)[s] == hist[|hist| - r + s];
      } else {
        SlotOf(k, s);
        assert (newer + older)[s] == hist[base + s - r];
      }
    }
  }

  /** The first n = min(|hist|, MAX_QUEUE_LENGTH) slots of the ring hold
      exactly the n most recent samples. */
  lemma RingWindow(qs: seq<u64>, hist: seq<u64>, n: int)
    requires RingOf(qs, hist)
    requires n == if |hist| > MaxQueueLength then MaxQueueLength else |hist|
    ensures multiset(qs[..n]) == multiset(hist[|hist| - n..])
  {
    if |hist| <= MaxQueueLength {
      RingNotWrapped(qs, hist);
      assert hist[|hist| - n..] == hist;
    } else {
      RingRotated(qs, hist);
      RotatedWindow(qs, hist);
      assert qs[..n] == qs;
    }
  }

  /** A rotation of the last MAX_QUEUE_LENGTH samples holds the same samples. */
  lemma RotatedWindow(qs: seq<u64>, hist: seq<u64>)
    requires |hist| > MaxQueueLength
    requires var base := |hist| - MaxQueueLength; var r := base % MaxQueueLength;
      qs == hist[|hist| - r..] + hist[base..|hist| - r]
    ensures multiset(qs) == multiset(hist[|hist| - MaxQueueLength..])
  {
    var base := |hist| - MaxQueueLength;
    var r := base % MaxQueueLength;
    SliceSplit(hist, base, |hist| - r);
    SwapHalves(hist[base..|hist| - r], hist[|hist| - r..], hist[base..]);
  }

  lemma SliceSplit(s: seq<u64>, a: int, b: int)
    requires 0 <= a <= b <= |s|
    ensures s[a..] == s[a..b] + s[b..]
  {
  }

  lemma SwapHalves(a: seq<u64>, b: seq<u64>, c: seq<u64>)
    requires c == a + b
    ensures multiset(b + a) == multiset(c)
  {
  }

  /** The run starting at offset 5 * g is run number g. */
  lemma FifthOf(g: nat, x: int)
    requires x == 5 * g
    ensures x / 5 == g && g <= x
  {
  }

  /** find_mid's loop ran g times over a range of x + 2 samples, so its
      medians fill slots 0 .. (x / 5). */
  lemma LastRunIndex(g: int, x: int)
    requires g >= 1 && 5 * (g - 1) <= x < 5 * g
    ensures x / 5 == g - 1
  {
  }

  /** Two write counts less than a ring apart use different slots. */
  lemma DistinctSlots(h: int, w: int)
    requires 0 <= h < w < h + MaxQueueLength
    ensures h % MaxQueueLength != w % MaxQueueLength
  {
    var qh, qw := h / MaxQueueLength, w / MaxQueueLength;
    assert h == MaxQueueLength * qh + h % MaxQueueLength;
    assert w == MaxQueueLength * qw + w % MaxQueueLength;
  }

  /** The slot of the write with count C * k + s is s. */
  lemma SlotOf(k: int, s: int)
    requires 0 <= s < MaxQueueLength
    ensures (MaxQueueLength * k + s) % MaxQueueLength == s
  {
  }

  /** What one insertion step leaves behind: b with b[i] moved down to
      position h, past the larger elements of the sorted run b[lo..i). */
  lemma InsertedRun(b: seq<u64>, r: seq<u64>, lo: int, i: int, h: int)
    requires 0 <= lo <= h <= i < |b| == |r|
    requires forall p, q :: lo <= p < q < i ==> b[p] <= b[q]
    requires forall p :: h <= p < i ==> b[p] > b[i]
    requires h > lo ==> b[h - 1] <= b[i]
    requires r[h] == b[i]
    requires forall p :: 0 <= p < |b| && !(h <= p <= i) ==> r[p] == b[p]
    requires forall p :: h + 1 <= p <= i ==> r[p] == b[p - 1]
    ensures forall p, q :: lo <= p < q <= i ==> r[p] <= r[q]
    ensures multiset(r) == multiset(b)
  {
    InsertedSorted(b, r, lo, i, h);
    InsertedSamples(b, r, i, h);
  }

  lemma InsertedSorted(b: seq<u64>, r: seq<u64>, lo: int, i: int, h: int)
    requires 0 <= lo <= h <= i < |b| == |r|
    requires forall p, q :: lo <= p < q < i ==> b[p] <= b[q]
    requires forall p :: h <= p < i ==> b[p] > b[i]
    requires h > lo ==> b[h - 1] <= b[i]
    requires r[h] == b[i]
    requires forall p :: lo <= p < h ==> r[p] == b[p]
    requires forall p :: h + 1 <= p <= i ==> r[p] == b[p - 1]
    ensures forall p, q :: lo <= p < q <= i ==> r[p] <= r[q]
  {
    forall p, q | lo <= p < q <= i ensures r[p] <= r[q] {
      if q < h {
        assert r[p] == b[p] && r[q] == b[q];
      } else if q == h {
        assert r[p] == b[p];
        if p < h - 1 {
          assert b[p] <= b[h - 1];
        }
      } else if p < h {
        assert r[p] == b[p] && r[q] == b[q - 1];
        if p < q - 1 {
          assert b[p] <= b[q - 1];
        }
      } else if p == h {
        assert r[q] == b[q - 1];
      } else {
        assert r[p] == b[p - 1] && r[q] == b[q - 1];
      }
    }
  }

  lemma InsertedSamples(b: seq<u64>, r: seq<u64>, i: int, h: int)
    requires 0 <= h <= i < |b| == |r|
    requires r[h] == b[i]
    requires forall p :: 0 <= p < |b| && !(h <= p <= i) ==> r[p] == b[p]
    requires forall p :: h + 1 <= p <= i ==> r[p] == b[p - 1]
    ensures multiset(r) == multiset(b)
  {
    assert r == b[..h] + [b[i]] + b[h..i] + b[i + 1..];
    assert b == b[..h] + b[h..i] + [b[i]] + b[i + 1..];
  }

  /** The state of the partition sweep over s, which started as s0 with a
      hole at left: the block [left, right] still holds the samples of s0
      once the hole at index is filled with the pivot mid, nothing outside
      the block has changed, positions [left, i) other than the hole hold
      samples not above mid, and positions (j, right] other than the hole
      samples not below mid. */
  ghost predicate Swept(s: seq<u64>, s0: seq<u64>, left: int, right: int, mid: u64, i: int, j: int, index: int) {
    && |s| == |s0| && 0 <= left && right < |s|
    && left <= i <= j + 1 <= right + 1
    && left <= index <= right
    && multiset(s[index := mid]) == multiset(s0[left := mid])
    && (forall p :: 0 <= p < |s| && !(left <= p <= right) ==> s[p] == s0[p])
    && (forall p :: left <= p < i && p != index ==> s[p] <= mid)
    && (forall p :: j < p <= right && p != index ==> s[p] >= mid)
  }

  /** The first half of a sweep round: after the downward scan stopped at
      j', the sample there (if the scan did not run into i) fills the hole. */
  lemma FillFromRight(s: seq<u64>, s0: seq<u64>, left: int, right: int, mid: u64,
                      i: int, j: int, index: int, j': int)
    requires Swept(s, s0, left, right, mid, i, j, index) && (index == i - 1 || index == i)
    requires i - 1 <= j' <= j
    requires forall p :: j' < p <= j ==> s[p] > mid
    requires j' >= i ==> s[j'] <= mid
    ensures i <= j' ==> Swept(s[index := s[j']], s0, left, right, mid, i, j' - 1, j')
    ensures i > j' ==> Swept(s, s0, left, right, mid, i, j', index) && i == j' + 1
  {
    if i <= j' {
      MoveHole(s, index, j', mid);
    }
  }

  /** The second half of a sweep round: after the upward scan stopped at
      i', the sample there (if the scan did not run into j) fills the hole,
      which was left at j + 1 by the first half. */
  lemma FillFromLeft(s: seq<u64>, s0: seq<u64>, left: int, right: int, mid: u64,
                     i: int, j: int, index: int, i': int)
    requires Swept(s, s0, left, right, mid, i, j, index) && (index == j + 1 || (index == j && i == j + 1))
    requires i <= i' <= j + 1
    requires forall p :: i <= p < i' ==> s[p] < mid
    requires i' <= j ==> s[i'] >= mid
    ensures i' <= j ==> Swept(s[index := s[i']], s0, left, right, mid, i' + 1, j, i')
    ensures i' > j ==> Swept(s, s0, left, right, mid, i', j, index) && (index == i' - 1 || index == i')
  {
    if i' <= j {
      MoveHole(s, index, i', mid);
    }
  }

  /** Refilling the pivot's slot f from position left and then putting the
      pivot at left keeps the samples. */
  lemma RefillKeepsSamples(t0: seq<u64>, f: int, left: int, mid: u64)
    requires 0 <= left < |t0| && 0 <= f < |t0| && t0[f] == mid
    ensures multiset(t0[f := t0[left]][left := mid]) == multiset(t0)
  {
    assert t0[f := mid] == t0;
    MoveHole(t0, f, left, mid);
  }

  /** Closing the partition: t1 is t0 with the pivot's slot f refilled from
      the left end, the sweep turned t1 into t2 with its hole at index, and
      putting the pivot into that hole partitions the block of t0. */
  lemma PartitionDone(t0: seq<u64>, t1: seq<u64>, t2: seq<u64>, left: int, right: int,
                      mid: u64, f: int, index: int)
    requires 0 <= left <= f <= right < |t0| && t0[f] == mid && t1 == t0[f := t0[left]]
    requires |t2| == |t1| && left <= index <= right
    requires multiset(t2[index := mid]) == multiset(t1[left := mid])
    requires forall p :: 0 <= p < |t2| && !(left <= p <= right) ==> t2[p] == t1[p]
    requires forall p :: left <= p < index ==> t2[p] <= mid
    requires forall p :: index < p <= right ==> t2[p] >= mid
    ensures PartitionedAt(t0, t2[index := mid], left, right, index)
  {
    var t3 := t2[index := mid];
    PartitionKeepsSamples(t0, t1, t2, left, right, mid, f, index);
    forall k | left <= k < index ensures t3[k] <= t3[index] {
      assert t3[k] == t2[k];
    }
    forall k | index < k <= right ensures t3[index] <= t3[k] {
      assert t3[k] == t2[k];
    }
  }

  /** The block of the partitioned sequence holds the samples of the block
      of t0, and nothing outside the block changed. */
  lemma PartitionKeepsSamples(t0: seq<u64>, t1: seq<u64>, t2: seq<u64>, left: int, right: int,
                              mid: u64, f: int, index: int)
    requires 0 <= left <= f <= right < |t0| && t0[f] == mid && t1 == t0[f := t0[left]]
    requires |t2| == |t1| && left <= index <= right
    requires multiset(t2[index := mid]) == multiset(t1[left := mid])
    requires forall p :: 0 <= p < |t2| && !(left <= p <= right) ==> t2[p] == t1[p]
    ensures forall p :: 0 <= p < |t0| && !(left <= p <= right) ==> t2[index := mid][p] == t0[p]
    ensures multiset(t2[index := mid][left..right + 1]) == multiset(t0[left..right + 1])
  {
    var t3 := t2[index := mid];
    RefillKeepsSamples(t0, f, left, mid);
    forall p | 0 <= p < |t3| && !(left <= p <= right) ensures t3[p] == t0[p] {
      assert t3[p] == t2[p] == t1[p];
    }
    SliceMultiset(t3, t0, left, right + 1);
  }

  /** The value calc reports for tag t over the samples s: the sample of
      rank floor(|s| * p) + 1 in sorted order. */
  ghost function PercentileOf(s: seq<u64>, t: int): u64
    requires |s| >= 1 && 0 <= t < TagCount
  {
    SortLength(s);
    Sort(s)[Rank(|s|, t) - 1]
  }

  /** ans holds the five percentiles of the samples s. */
  ghost predicate Reports(ans: seq<u64>, s: seq<u64>) {
    |s| >= 1 && |ans| == TagCount && forall t :: 0 <= t < TagCount ==> ans[t] == PercentileOf(s, t)
  }

  /** The percentiles depend only on which samples arrived, not on their order. */
  lemma PercentileOfPermutation(a: seq<u64>, b: seq<u64>)
    requires |a| >= 1 && multiset(a) == multiset(b)
    ensures |b| == |a|
    ensures forall t :: 0 <= t < TagCount ==> PercentileOf(a, t) == PercentileOf(b, t)
  {
    assert |a| == |multiset(a)| == |multiset(b)| == |b|;
    SortOfPermutation(a, b);
  }

  lemma ReportsPermutation(ans: seq<u64>, a: seq<u64>, b: seq<u64>)
    requires Reports(ans, a) && multiset(a) == multiset(b)
    ensures Reports(ans, b)
  {
    PercentileOfPermutation(a, b);
  }

  /** The percentiles come out in tag order: p50 <= p90 <= p95 <= p99 <= p999. */
  lemma PercentilesOrdered(s: seq<u64>, t1: int, t2: int)
    requires |s| >= 1 && 0 <= t1 <= t2 < TagCount
    ensures PercentileOf(s, t1) <= PercentileOf(s, t2)
  {
    SortFacts(s);
    RanksInRange(|s|);
  }

  /** Every percentile is one of the samples. */
  lemma PercentileIsSample(s: seq<u64>, t: int)
    requires |s| >= 1 && 0 <= t < TagCount
    ensures PercentileOf(s, t) in s
  {
    SortFacts(s);
    RanksInRange(|s|);
    assert PercentileOf(s, t) in multiset(Sort(s));
  }

  /** The message of every fail-fast on an unsupported operation. */
  const InvalidFlow: string := "invalid execution flow"

  /** The message of the fail-fast on a tag outside [0, COUNTER_PERCENTILE_COUNT). */
  const WrongTag: string := "send a wrong counter percentile type"

  /** perf_counter_number_percentile. */
  class PercentileCounter {
    /** Count of samples ever recorded (_tail): the write cursor of the ring. */
    var tail: nat
    /** The ring of the most recent samples (_queue). */
    const queue: array<u64>
    /** Scratch copy of the snapshot that the selection permutes (_tmp). */
    const tmp: array<u64>
    /** Scratch space of the median-of-medians pivot search (_mid_temp). */
    const midTemp: array<u64>
    /** Pending ranks, one per tag, relative to the task holding the tag (_ask). */
    const ask: array<u64>
    /** Last computed answer, one per tag (_ans). */
    const ans: array<u64>
    /** The worklist of calc (_calc_queue up to calc_tail). */
    var calcQueue: seq<Task>
    /** Every sample recorded so far, oldest first. */
    ghost var history: seq<u64>

    ghost predicate Valid()
      reads this, queue
    {
      && queue.Length == MaxQueueLength && tmp.Length == MaxQueueLength
      && midTemp.Length == MaxQueueLength
      && ask.Length == TagCount && ans.Length == TagCount
      && queue != tmp && queue != midTemp && queue != ask && queue != ans
      && tmp != midTemp && tmp != ask && tmp != ans
      && midTemp != ask && midTemp != ans && ask != ans
      && tail == |history|
      && RingOf(queue[..], history)
    }

    /** Number of valid samples in the ring: min(tail, MAX_QUEUE_LENGTH). */
    function Count(): (c: nat)
      reads this
      ensures c <= MaxQueueLength && c <= tail && (c == tail || c == MaxQueueLength)
      ensures tail > 0 ==> c > 0
    {
      if tail > MaxQueueLength then MaxQueueLength else tail
    }

    constructor ()
      ensures Valid()
      ensures tail == 0 && history == [] && calcQueue == []
      ensures fresh(queue) && fresh(tmp) && fresh(midTemp) && fresh(ask) && fresh(ans)
    {
      tail := 0;
      queue := new u64[MaxQueueLength];
      tmp := new u64[MaxQueueLength];
      midTemp := new u64[MaxQueueLength];
      ask := new u64[TagCount];
      ans := new u64[TagCount];
      calcQueue := [];
      history := [];
    }

    /** Records a sample: claims slot tail mod MAX_QUEUE_LENGTH and advances tail. */
    method Set(val: u64)
      requires Valid()
      modifies this`tail, this`history, queue
      ensures Valid()
      ensures tail == old(tail) + 1 && history == old(history) + [val]
      ensures queue[old(tail) % MaxQueueLength] == val
      ensures forall s :: 0 <= s < MaxQueueLength && s != old(tail) % MaxQueueLength ==>
                queue[s] == old(queue[s])
    {
      var idx := tail;
      tail := tail + 1;
      queue[idx % MaxQueueLength] := val;
      history := history + [val];
      forall h | 0 <= h < tail && tail - MaxQueueLength <= h
        ensures queue[..][h % MaxQueueLength] == history[h]
      {
        if h < idx {
          DistinctSlots(h, idx);
        }
      }
    }

    /** The valid part of the ring holds exactly the most recent Count()
        samples, rotated: once more than MAX_QUEUE_LENGTH samples arrived,
        the oldest ones are gone. */
    lemma RingHoldsWindow()
      requires Valid()
      ensures multiset(queue[..Count()]) == multiset(history[tail - Count()..])
    {
      RingWindow(queue[..], history, Count());
      assert queue[..Count()] == queue[..][..Count()];
    }

    /** Insertion sort of the run midTemp[lo..hi) in place, as find_mid does
        for each run of five. */
    method SortRun(lo: int, hi: int)
      requires 0 <= lo <= hi <= midTemp.Length
      modifies midTemp
      ensures Sorted(midTemp[lo..hi])
      ensures multiset(midTemp[lo..hi]) == old(multiset(midTemp[lo..hi]))
      ensures forall p :: 0 <= p < midTemp.Length && !(lo <= p < hi) ==> midTemp[p] == old(midTemp[p])
    {
      var i := lo;
      while i < hi
        invariant lo <= i <= hi
        invariant forall p, q :: lo <= p < q < i ==> midTemp[p] <= midTemp[q]
        invariant multiset(midTemp[..]) == old(multiset(midTemp[..]))
        invariant forall p :: 0 <= p < midTemp.Length && !(lo <= p < hi) ==> midTemp[p] == old(midTemp[p])
      {
        InsertInRun(lo, i);
        i := i + 1;
      }
      SliceMultiset(midTemp[..], old(midTemp[..]), lo, hi);
    }

    /** One step of the insertion sort: shifts the larger elements of the
        sorted run midTemp[lo..i) one slot up and drops midTemp[i] into the hole. */
    method InsertInRun(lo: int, i: int)
      requires 0 <= lo <= i < midTemp.Length
      requires forall p, q :: lo <= p < q < i ==> midTemp[p] <= midTemp[q]
      modifies midTemp
      ensures forall p, q :: lo <= p < q <= i ==> midTemp[p] <= midTemp[q]
      ensures multiset(midTemp[..]) == old(multiset(midTemp[..]))
      ensures forall p :: 0 <= p < midTemp.Length && !(lo <= p <= i) ==> midTemp[p] == old(midTemp[p])
    {
      ghost var b := midTemp[..];
      var k := midTemp[i];
      var h := ShiftLarger(lo, i, k);
      midTemp[h] := k;
      InsertedRun(b, midTemp[..], lo, i, h);
    }

    /** The shifting loop of one insertion step: moves every element of
        midTemp[lo..i) larger than k, from the top down, one slot up, and
        returns the slot left free for k. */
    method ShiftLarger(lo: int, i: int, k: u64) returns (h: int)
      requires 0 <= lo <= i < midTemp.Length
      modifies midTemp
      ensures lo <= h <= i
      ensures forall p :: 0 <= p < midTemp.Length && !(h + 1 <= p <= i) ==> midTemp[p] == old(midTemp[p])
      ensures forall p :: h + 1 <= p <= i ==> midTemp[p] == old(midTemp[p - 1])
      ensures forall p :: h <= p < i ==> old(midTemp[p]) > k
      ensures h > lo ==> old(midTemp[h - 1]) <= k
    {
      var j := i - 1;
      while j >= lo && midTemp[j] > k
        invariant lo - 1 <= j <= i - 1
        invariant forall p :: 0 <= p < midTemp.Length && !(j + 2 <= p <= i) ==> midTemp[p] == old(midTemp[p])
        invariant forall p :: j + 2 <= p <= i ==> midTemp[p] == old(midTemp[p - 1])
        invariant forall p :: j + 1 <= p < i ==> old(midTemp[p]) > k
      {
        midTemp[j + 1] := midTemp[j];
        j := j - 1;
      }
      h := j + 1;
    }

    /** The median-of-medians pivot of midTemp[left..right]: sorts runs of
        five (the last run takes up to six), writes the median of run g to
        slot g, and recurs on the medians. The pivot is one of the samples
        of the range, which is what the search in select relies on. */
    method FindMid(left: int, right: int) returns (m: u64)
      requires 0 <= left <= right < midTemp.Length
      modifies midTemp
      ensures m in old(midTemp[left..right + 1])
      decreases right - left
    {
      if left == right {
        return midTemp[left];
      }
      ghost var orig := midTemp[left..right + 1];
      ghost var g := 0;
      var index := left;
      while index < right
        invariant index == left + 5 * g && g >= 0
        invariant index == left || index - 5 < right
        invariant forall p :: index <= p <= right && index < right ==> midTemp[p] == orig[p - left]
        invariant forall s :: 0 <= s < g ==> midTemp[s] in orig
      {
        MedianToSlot(left, right, index, g, orig);
        index := index + 5;
        g := g + 1;
      }
      LastRunIndex(g, right - left - 1);
      m := FindMid(0, (right - left - 1) / 5);
    }

    /** The length of the run find_mid sorts at index: five, or everything
        left when fewer than six samples remain. */
    static function RunLength(index: int, right: int): int {
      if index + 5 >= right then right - index + 1 else 5
    }

    /** One round of find_mid's loop: the median of the run starting at
        index, run number g, goes to slot g. */
    method MedianToSlot(left: int, right: int, index: int, ghost g: int, ghost orig: seq<u64>)
      requires 0 <= left <= index < right < midTemp.Length && index == left + 5 * g && g >= 0
      requires |orig| == right - left + 1
      requires forall p :: index <= p <= right ==> midTemp[p] == orig[p - left]
      modifies midTemp
      ensures |Sort(orig[index - left..index - left + RunLength(index, right)])| == RunLength(index, right)
      ensures midTemp[g] == Sort(orig[index - left..index - left + RunLength(index, right)])[RunLength(index, right) / 2]
      ensures midTemp[g] in orig
      ensures index + 5 < right ==> forall p :: index + 5 <= p <= right ==> midTemp[p] == orig[p - left]
      ensures forall s :: 0 <= s < g ==> midTemp[s] == old(midTemp[s])
    {
      var remain := RunLength(index, right);
      ghost var run := midTemp[index..index + remain];
      var med := RunMedian(index, index + remain);
      assert run == orig[index - left..index - left + remain];
      assert med in orig;
      FifthOf(g, index - left);
      midTemp[(index - left) / 5] := med;
    }

    /** Sorts the run midTemp[lo..hi) and returns its middle element: the
        median of the run (the upper one of an even-sized run). */
    method RunMedian(lo: int, hi: int) returns (med: u64)
      requires 0 <= lo < hi <= midTemp.Length
      modifies midTemp
      ensures |Sort(old(midTemp[lo..hi]))| == hi - lo && med == Sort(old(midTemp[lo..hi]))[(hi - lo) / 2]
      ensures med in old(midTemp[lo..hi])
      ensures forall p :: 0 <= p < midTemp.Length && !(lo <= p < hi) ==> midTemp[p] == old(midTemp[p])
    {
      ghost var run := midTemp[lo..hi];
      SortRun(lo, hi);
      med := midTemp[lo + (hi - lo) / 2];
      SortedIsSort(midTemp[lo..hi], run, (hi - lo) / 2);
    }

    /** The first position of tmp[left..right] holding the pivot. */
    method FindPivot(left: int, right: int, mid: u64) returns (index: int)
      requires 0 <= left <= right < tmp.Length
      requires mid in tmp[left..right + 1]
      ensures left <= index <= right && tmp[index] == mid
      ensures forall p :: left <= p < index ==> tmp[p] != mid
    {
      index := left;
      while index <= right
        invariant left <= index <= right + 1
        invariant mid in tmp[index..right + 1]
        invariant forall p :: left <= p < index ==> tmp[p] != mid
      {
        if tmp[index] == mid {
          break;
        }
        index := index + 1;
      }
    }

    /** Partitions tmp[left..right] around the pivot sample mid, which lies
        in the block: the first slot holding mid is refilled from the left
        end, and the hole left at the left end is swept to the pivot's final
        position. */
    method Partition(left: int, right: int, mid: u64) returns (index: int)
      requires 0 <= left <= right < tmp.Length
      requires mid in tmp[left..right + 1]
      modifies tmp
      ensures PartitionedAt(old(tmp[..]), tmp[..], left, right, index)
      ensures tmp[index] == mid
    {
      ghost var t0 := tmp[..];
      var f := FindPivot(left, right, mid);
      tmp[f] := tmp[left];
      ghost var t1 := tmp[..];
      index := SweepHole(left, right, mid);
      PartitionDone(t0, t1, tmp[..], left, right, mid, f, index);
      tmp[index] := mid;
    }

    /** The partition loop proper. The hole starts at left; samples larger
        than mid are left in place from the right end down, samples smaller
        than mid from the left end up, and every other sample met is moved
        into the hole, which then takes its place. Returns the final hole. */
    method SweepHole(left: int, right: int, mid: u64) returns (index: int)
      requires 0 <= left <= right < tmp.Length
      modifies tmp
      ensures left <= index <= right
      ensures multiset(tmp[..][index := mid]) == multiset(old(tmp[..])[left := mid])
      ensures forall p :: 0 <= p < tmp.Length && !(left <= p <= right) ==> tmp[p] == old(tmp[p])
      ensures forall p :: left <= p < index ==> tmp[p] <= mid
      ensures forall p :: index < p <= right ==> tmp[p] >= mid
    {
      index := left;
      var i, j := left, right;
      while i <= j
        invariant Swept(tmp[..], old(tmp[..]), left, right, mid, i, j, index)
        invariant index == i - 1 || index == i
        decreases j - i + 1
      {
        var j' := SkipLarger(i, j, mid);
        FillFromRight(tmp[..], old(tmp[..]), left, right, mid, i, j, index, j');
        j := j';
        if i <= j {
          tmp[index] := tmp[j];
          index := j;
          j := j - 1;
        }
        var i' := SkipSmaller(i, j, mid);
        FillFromLeft(tmp[..], old(tmp[..]), left, right, mid, i, j, index, i');
        i := i';
        if i <= j {
          tmp[index] := tmp[i];
          index := i;
          i := i + 1;
        }
      }
    }

    /** The downward scan of the partition: the highest position at or
        below j, and not below i - 1, whose sample is not larger than mid. */
    method SkipLarger(i: int, j: int, mid: u64) returns (j': int)
      requires 0 <= i <= j + 1 <= tmp.Length
      ensures i - 1 <= j' <= j
      ensures forall p :: j' < p <= j ==> tmp[p] > mid
      ensures j' >= i ==> tmp[j'] <= mid
    {
      j' := j;
      while i <= j' && tmp[j'] > mid
        invariant i - 1 <= j' <= j
        invariant forall p :: j' < p <= j ==> tmp[p] > mid
      {
        j' := j' - 1;
      }
    }

    /** The upward scan of the partition: the lowest position at or above
        i, and not above j + 1, whose sample is not smaller than mid. */
    method SkipSmaller(i: int, j: int, mid: u64) returns (i': int)
      requires 0 <= i <= j + 1 <= tmp.Length
      ensures i <= i' <= j + 1
      ensures forall p :: i <= p < i' ==> tmp[p] < mid
      ensures i' <= j ==> tmp[i'] >= mid
    {
      i' := i;
      while i' <= j && tmp[i'] < mid
        invariant i <= i' <= j + 1
        invariant forall p :: i <= p < i' ==> tmp[p] < mid
      {
        i' := i' + 1;
      }
    }

    /** Splits the tags [qleft, qright] at the pivot's relative position
        now: i is the first tag whose rank is not below now, the ranks from
        i on drop by now, and the tags whose rank was exactly now (now 0)
        get rank 1 in the pivot's one-sample block, up to j. */
    method SplitRanks(qleft: int, qright: int, now: int) returns (i: int, j: int)
      requires 0 <= qleft <= qright + 1 <= ask.Length && now >= 1
      requires forall t1, t2 :: qleft <= t1 <= t2 <= qright ==> ask[t1] <= ask[t2]
      modifies ask
      ensures RankSplit(old(ask[..]), ask[..], qleft, qright, i, j, now)
    {
      i := qleft;
      while i <= qright && ask[i] < now
        invariant qleft <= i <= qright + 1
        invariant forall t :: qleft <= t < i ==> ask[t] < now
      {
        i := i + 1;
      }
      j := i;
      while j <= qright
        invariant i <= j <= qright + 1
        invariant i <= qright ==> old(ask[i]) >= now
        invariant forall t :: 0 <= t < ask.Length && !(i <= t < j) ==> ask[t] == old(ask[t])
        invariant forall t :: i <= t < j ==> ask[t] as int == old(ask[t]) - now
      {
        ask[j] := ask[j] - now;
        j := j + 1;
      }
      j := i;
      while j <= qright && ask[j] == 0
        invariant i <= j <= qright + 1
        invariant forall t :: 0 <= t < ask.Length && !(i <= t <= qright) ==> ask[t] == old(ask[t])
        invariant forall t :: i <= t < j ==> old(ask[t]) == now && ask[t] == 1
        invariant forall t :: j <= t <= qright ==> ask[t] as int == old(ask[t]) - now
      {
        ask[j] := ask[j] + 1;
        j := j + 1;
      }
      assert j <= qright ==> old(ask[j]) > now;
    }

    /** Appends a task to the worklist (the calc_tail cursor advances). */
    method InsertCalcQueue(left: int, right: int, qleft: int, qright: int)
      modifies this`calcQueue
      ensures calcQueue == old(calcQueue) + [Task(left, right, qleft, qright)]
    {
      calcQueue := calcQueue + [Task(left, right, qleft, qright)];
    }

    /** One task of the worklist: a task without tags is dropped; a
        one-sample block answers each of its tags (every one of them must
        then ask for rank 1); any larger block is partitioned around its
        median-of-medians pivot, its tags are split by the pivot's rank, and
        the three resulting tasks are appended to the worklist. */
    method Select(left: int, right: int, qleft: int, qright: int)
      requires Valid()
      requires qleft <= qright ==> 0 <= left <= right < tmp.Length && 0 <= qleft && qright < TagCount
      requires qleft <= qright ==> forall t1, t2 :: qleft <= t1 <= t2 <= qright ==> ask[t1] <= ask[t2]
      requires qleft <= qright && left == right ==> forall t :: qleft <= t <= qright ==> ask[t] == 1
      modifies tmp, midTemp, ask, ans, this`calcQueue
      ensures Valid()
      ensures qleft > qright ==>
                tmp[..] == old(tmp[..]) && ask[..] == old(ask[..]) && ans[..] == old(ans[..])
                && calcQueue == old(calcQueue)
      ensures qleft <= qright && left == right ==>
                tmp[..] == old(tmp[..]) && ask[..] == old(ask[..]) && calcQueue == old(calcQueue)
                && forall t :: 0 <= t < TagCount ==>
                     ans[t] == if qleft <= t <= qright then tmp[left] else old(ans[t])
      ensures qleft <= qright && left < right ==>
                && ans[..] == old(ans[..])
                && |calcQueue| == |old(calcQueue)| + 3 && calcQueue[..|old(calcQueue)|] == old(calcQueue)
                && SplitBy(Task(left, right, qleft, qright), calcQueue[|old(calcQueue)|..],
                           old(tmp[..]), tmp[..], old(ask[..]), ask[..])
    {
      if qleft > qright {
        return;
      }
      if left == right {
        var i := qleft;
        while i <= qright
          modifies ans
          invariant qleft <= i <= qright + 1
          invariant forall t :: 0 <= t < TagCount ==>
                      ans[t] == if qleft <= t < i then tmp[left] else old(ans[t])
        {
          if ask[i] == 1 {
            ans[i] := tmp[left];
          } else {
            assert false;
          }
          i := i + 1;
        }
        return;
      }
      Split(left, right, qleft, qright);
    }

    /** The partitioning branch of select. */
    method Split(left: int, right: int, qleft: int, qright: int)
      requires Valid()
      requires 0 <= left < right < tmp.Length && 0 <= qleft <= qright < TagCount
      requires forall t1, t2 :: qleft <= t1 <= t2 <= qright ==> ask[t1] <= ask[t2]
      modifies tmp, midTemp, ask, this`calcQueue
      ensures Valid()
      ensures |calcQueue| == |old(calcQueue)| + 3 && calcQueue[..|old(calcQueue)|] == old(calcQueue)
      ensures SplitBy(Task(left, right, qleft, qright), calcQueue[|old(calcQueue)|..],
                      old(tmp[..]), tmp[..], old(ask[..]), ask[..])
    {
      CopyBlock(left, right);
      var mid := FindMid(left, right);
      ghost var tmp0, ask0 := tmp[..], ask[..];
      assert tmp0 == old(tmp[..]) && ask0 == old(ask[..]);
      var index := Partition(left, right, mid);
      ghost var tmp1 := tmp[..];
      assert PartitionedAt(tmp0, tmp1, left, right, index);
      var now := index - left + 1;
      var i, j := SplitRanks(qleft, qright, now);
      assert RankSplit(ask0, ask[..], qleft, qright, i, j, now);
      assert tmp[..] == tmp1;
      InsertCalcQueue(left, index - 1, qleft, i - 1);
      InsertCalcQueue(index, index, i, j - 1);
      InsertCalcQueue(index + 1, right, j, qright);
      assert calcQueue[|old(calcQueue)|..] == Children(Task(left, right, qleft, qright), index, i, j);
    }

    /** The copy loop of select: midTemp[left..right] becomes tmp[left..right]. */
    method CopyBlock(left: int, right: int)
      requires 0 <= left <= right < tmp.Length == midTemp.Length && tmp != midTemp
      modifies midTemp
      ensures midTemp[left..right + 1] == tmp[left..right + 1]
    {
      var i := left;
      while i <= right
        invariant left <= i <= right + 1
        invariant forall p :: left <= p < i ==> midTemp[p] == tmp[p]
      {
        midTemp[i] := tmp[i];
        i := i + 1;
      }
    }

    /** Recomputes the five percentiles over the samples in the ring: copies
        them to tmp, asks for rank floor(n * p) + 1 of each tag, and runs the
        selection worklist until it is empty. Afterwards each answer is the
        sample of that rank among the most recent min(tail, MAX_QUEUE_LENGTH)
        samples. With no sample yet nothing happens. */
    method Calc()
      requires Valid()
      modifies tmp, midTemp, ask, ans, this`calcQueue
      ensures Valid()
      ensures tail == 0 ==> ans[..] == old(ans[..])
      ensures tail > 0 ==> Reports(ans[..], queue[..Count()])
      ensures tail > 0 ==> Reports(ans[..], history[tail - Count()..])
    {
      if tail == 0 {
        return;
      }
      CalcWindow();
      RingHoldsWindow();
      ReportsPermutation(ans[..], queue[..Count()], history[tail - Count()..]);
    }

    /** get_percentile: -1 while no sample has arrived (checked before the
        tag), a fail-fast on a tag outside [0, COUNTER_PERCENTILE_COUNT),
        otherwise the answer of the last calc for the tag. */
    function GetPercentile(t: int): (r: Result<int>)
      reads this, ans
      requires ans.Length == TagCount
      ensures tail == 0 ==> r == Success(-1)
      ensures tail > 0 && !(0 <= t < TagCount) ==> r == Failure(WrongTag)
      ensures tail > 0 && 0 <= t < TagCount ==> r.Success? && 0 <= r.value < TwoTo64
    {
      if tail == 0 then Success(-1)
      else if t < 0 || t >= TagCount then Failure(WrongTag)
      else Success(ans[t] as int)
    }

    /** After a calc, get_percentile reports for each tag the sample of the
        tag's rank among the most recent min(tail, MAX_QUEUE_LENGTH) samples,
        which is one of those samples, and a later tag reports no less. */
    lemma ReadsPercentile(t: int, t2: int)
      requires Valid() && tail > 0 && Reports(ans[..], history[tail - Count()..])
      requires 0 <= t <= t2 < TagCount
      ensures GetPercentile(t) == Success(PercentileOf(history[tail - Count()..], t) as int)
      ensures GetPercentile(t).value <= GetPercentile(t2).value
      ensures PercentileOf(history[tail - Count()..], t) in history[tail - Count()..]
    {
      var w := history[tail - Count()..];
      assert ans[t] == ans[..][t] == PercentileOf(w, t);
      assert ans[t2] == ans[..][t2] == PercentileOf(w, t2);
      PercentilesOrdered(w, t, t2);
      PercentileIsSample(w, t);
    }

    /** increment on a percentile counter fails fast. */
    method Increment() returns (o: Outcome)
      ensures o == Fail(InvalidFlow)
    {
      o := Fail(InvalidFlow);
    }

    /** decrement on a percentile counter fails fast. */
    method Decrement() returns (o: Outcome)
      ensures o == Fail(InvalidFlow)
    {
      o := Fail(InvalidFlow);
    }

    /** add on a percentile counter fails fast. */
    method Add(val: u64) returns (o: Outcome)
      ensures o == Fail(InvalidFlow)
    {
      o := Fail(InvalidFlow);
    }

    /** get_value on a percentile counter fails fast. */
    method GetValue() returns (r: Result<int>)
      ensures r == Failure(InvalidFlow)
    {
      r := Failure(InvalidFlow);
    }

    /** Calc on a non-empty counter: snapshot, ranks, one task, drain. */
    method CalcWindow()
      requires Valid() && tail > 0
      modifies tmp, midTemp, ask, ans, this`calcQueue
      ensures Valid()
      ensures Reports(ans[..], queue[..Count()])
    {
      var n := Snapshot();
      AskRanks(n);
      calcQueue := [];
      InsertCalcQueue(0, n - 1, 0, TagCount - 1);
      Drain(queue[..n]);
    }

    /** The first step of calc: copies the min(tail, MAX_QUEUE_LENGTH)
        valid samples of the ring to tmp and returns their number. */
    method Snapshot() returns (n: int)
      requires Valid() && tail > 0
      modifies tmp
      ensures n == Count() && 1 <= n <= tmp.Length
      ensures tmp[..n] == queue[..n]
    {
      n := if tail > MaxQueueLength then MaxQueueLength else tail;
      var i := 0;
      while i < n
        invariant 0 <= i <= n
        invariant forall p :: 0 <= p < i ==> tmp[p] == queue[p]
      {
        tmp[i] := queue[i];
        i := i + 1;
      }
    }

    /** The second step of calc: each tag asks for rank floor(n * p) + 1. */
    method AskRanks(n: int)
      requires 1 <= n <= MaxQueueLength && ask.Length == TagCount
      modifies ask
      ensures forall t :: 0 <= t < TagCount ==> ask[t] as int == Rank(n, t)
    {
      RanksInRange(n);
      ask[0] := Rank(n, 0);
      ask[1] := Rank(n, 1);
      ask[2] := Rank(n, 2);
      ask[3] := Rank(n, 3);
      ask[4] := Rank(n, 4);
    }

    /** The loop of calc: runs select on each task of the worklist, in
        order, until no task is left; the worklist starts with the whole
        snapshot snap in tmp and every tag asking for its rank. */
    method Drain(ghost snap: seq<u64>)
      requires Valid()
      requires 1 <= |snap| <= tmp.Length && tmp[..|snap|] == snap
      requires calcQueue == [Task(0, |snap| - 1, 0, TagCount - 1)]
      requires forall t :: 0 <= t < TagCount ==> ask[t] as int == Rank(|snap|, t)
      modifies tmp, midTemp, ask, ans, this`calcQueue
      ensures Valid()
      ensures Reports(ans[..], snap)
    {
      ghost var owner := seq(TagCount, t => 0);
      ghost var S, R := Sort(snap), Ranks(|snap|);
      StartWorklist(calcQueue, tmp[..], ask[..], ans[..], snap, owner);
      var l := 0;
      while l < |calcQueue|
        invariant Valid()
        invariant Worklist(calcQueue, l, owner, tmp[..], ask[..], ans[..], S, R)
        decreases TotalWeight(calcQueue[l..])
      {
        owner := RunTask(l, owner, S, R);
        l := l + 1;
      }
      FinishWorklist(calcQueue, owner, tmp[..], ask[..], ans[..], snap);
    }

    /** One round of the loop of calc: select on the task at position l. */
    method RunTask(l: int, ghost owner: seq<int>, ghost S: seq<u64>, ghost R: seq<int>) returns (ghost owner': seq<int>)
      requires Valid()
      requires Worklist(calcQueue, l, owner, tmp[..], ask[..], ans[..], S, R) && l < |calcQueue|
      requires forall t1, t2 :: 0 <= t1 <= t2 < TagCount ==> R[t1] <= R[t2]
      modifies tmp, midTemp, ask, ans, this`calcQueue
      ensures Valid()
      ensures Worklist(calcQueue, l + 1, owner', tmp[..], ask[..], ans[..], S, R)
      ensures TotalWeight(calcQueue[l + 1..]) < old(TotalWeight(calcQueue[l..]))
    {
      ghost var q0, tmp0, ask0, ans0 := calcQueue, tmp[..], ask[..], ans[..];
      var tk := calcQueue[l];
      if Pending(tk) {
        assert Sound(tk, tmp0, ask0, S, R);
      }
      Select(tk.left, tk.right, tk.qleft, tk.qright);
      owner' := owner;
      if !Pending(tk) {
        StepSkip(q0, l, owner, tmp0, ask0, ans0, S, R);
        StepLighter(q0, l, []);
        assert q0 + [] == q0;
      } else if tk.left == tk.right {
        StepLeaf(q0, l, owner, tmp0, ask0, ans0, ans[..], S, R);
        StepLighter(q0, l, []);
        assert q0 + [] == q0;
      } else {
        ghost var c := calcQueue[|q0|..];
        assert calcQueue == q0 + c;
        StepSplit(q0, l, owner, tmp0, tmp[..], ask0, ask[..], ans0, S, R, c[1].left, c[1].qleft, c[2].qleft);
        ChildrenLighter(tk, c[1].left, c[1].qleft, c[2].qleft);
        StepLighter(q0, l, c);
        owner' := Reassign(owner, tk, |q0|, c[1].qleft, c[2].qleft);
      }
    }
  }

  /** An update of the number counter. */
  datatype Update = Inc | Dec | AddBy(amount: u64)

  /** The signed change an update makes, before reduction modulo 2^64. */
  function Delta(u: Update): int {
    match u
    case Inc => 1
    case Dec => -1
    case AddBy(a) => a
  }

  /** The sum of the changes of a sequence of updates. */
  function Net(us: seq<Update>): int {
    if us == [] then 0 else Net(us[..|us| - 1]) + Delta(us[|us| - 1])
  }

  /** The value after applying the updates us in arrival order to v, each
      one wrapping around modulo 2^64 as uint64_t arithmetic does. */
  function Apply(v: u64, us: seq<Update>): u64 {
    if us == [] then v else Wrap64(Apply(v, us[..|us| - 1]) + Delta(us[|us| - 1]))
  }

  /** Reducing an intermediate value does not change the final reduction. */
  lemma WrapShift(x: int, d: int)
    ensures Wrap64(Wrap64(x) + d) == Wrap64(x + d)
  {
    var k := x / TwoTo64;
    assert x == TwoTo64 * k + Wrap64(x);
    ShiftByMultiple(Wrap64(x) + d, k);
  }

  lemma ShiftByMultiple(y: int, k: int)
    ensures (y + TwoTo64 * k) % TwoTo64 == y % TwoTo64
  {
    var q, r := y / TwoTo64, y % TwoTo64;
    assert y + TwoTo64 * k == TwoTo64 * (q + k) + r;
  }

  /** Applying updates one by one gives the start value plus their net
      change, reduced once modulo 2^64. */
  lemma {:induction false} ApplyIsNet(v: u64, us: seq<Update>)
    ensures Apply(v, us) == Wrap64(v + Net(us))
  {
    if us != [] {
      var init := us[..|us| - 1];
      ApplyIsNet(v, init);
      WrapShift(v + Net(init), Delta(us[|us| - 1]));
    }
  }

  lemma {:induction false} NetConcat(us: seq<Update>, vs: seq<Update>)
    ensures Net(us + vs) == Net(us) + Net(vs)
  {
    if vs != [] {
      var init := vs[..|vs| - 1];
      assert (us + vs)[..|us + vs| - 1] == us + init;
      NetConcat(us, init);
    } else {
      assert us + vs == us;
    }
  }

  /** Two batches of updates give the same value in either order: the
      counter's total does not depend on how concurrent updates interleave. */
  lemma ApplyCommutes(v: u64, us: seq<Update>, vs: seq<Update>)
    ensures Apply(v, us + vs) == Apply(v, vs + us)
  {
    ApplyIsNet(v, us + vs);
    ApplyIsNet(v, vs + us);
    NetConcat(us, vs);
    NetConcat(vs, us);
  }

  /** decrement undoes increment, also across the 2^64 wrap. */
  lemma DecrementUndoesIncrement(v: u64)
    ensures Apply(v, [Inc, Dec]) == v
  {
    ApplyIsNet(v, [Inc, Dec]);
    assert Net([Inc, Dec]) == Net([Inc]) + Delta(Dec);
    assert [Inc, Dec][..1] == [Inc];
    assert [Inc][..0] == [];
  }

  /** perf_counter_number: a uint64_t accumulator. */
  class NumberCounter {
    /** The current value (_val). */
    var val: u64
    /** Every update applied so far, oldest first. */
    ghost var log: seq<Update>

    /** The value is what the logged updates leave of 0. */
    ghost predicate Valid()
      reads this
    {
      val == Apply(0, log)
    }

    constructor ()
      ensures Valid() && val == 0 && log == []
    {
      val := 0;
      log := [];
    }

    method Increment()
      requires Valid()
      modifies this
      ensures Valid() && log == old(log) + [Inc]
      ensures val == Wrap64(old(val) + 1)
    {
      val := Wrap64(val + 1);
      log := log + [Inc];
      assert log[..|log| - 1] == old(log);
    }

    method Decrement()
      requires Valid()
      modifies this
      ensures Valid() && log == old(log) + [Dec]
      ensures val == Wrap64(old(val) - 1)
    {
      val := Wrap64(val - 1);
      log := log + [Dec];
      assert log[..|log| - 1] == old(log);
    }

    method Add(amount: u64)
      requires Valid()
      modifies this
      ensures Valid() && log == old(log) + [AddBy(amount)]
      ensures val == Wrap64(old(val) + amount)
    {
      val := Wrap64(val + amount);
      log := log + [AddBy(amount)];
      assert log[..|log| - 1] == old(log);
    }

    /** set on a number counter fails fast. */
    method Set(amount: u64) returns (o: Outcome)
      ensures o == Fail(InvalidFlow)
    {
      o := Fail(InvalidFlow);
    }

    /** get_value: the net change of every update so far, modulo 2^64. */
    function GetValue(): (r: int)
      reads this
      requires Valid()
      ensures r == Wrap64(Net(log))
    {
      ApplyIsNet(0, log);
      val
    }

    /** get_percentile on a number counter ignores the tag and returns the value. */
    function GetPercentile(t: int): (r: int)
      reads this
      requires Valid()
      ensures r == Wrap64(Net(log)) && 0 <= r < TwoTo64
    {
      GetValue()
    }
  }

  /** The counter types a counter can be created with. */
  datatype CounterType = Number | VolatileNumber | Rate | NumberPercentiles

  /** The implementation a counter type selects. */
  datatype Kind = NumberKind | RateKind | PercentileKind

  /** The dispatch of the simple_perf_counter constructor: NUMBER gets the
      number counter, RATE the rate counter, every other type the
      percentile counter. */
  function KindOf(t: CounterType): (k: Kind)
    ensures k == NumberKind <==> t == Number
    ensures k == RateKind <==> t == Rate
    ensures k == PercentileKind <==> t != Number && t != Rate
  {
    if t == Number then NumberKind
    else if t == Rate then RateKind
    else PercentileKind
  }

  /** The implementation object behind a counter. */
  datatype CounterImpl =
    | NumberImpl(number: NumberCounter)
    | RateImpl
    | PercentileImpl(percentile: PercentileCounter)

  /** Builds the implementation a counter type selects, freshly allocated
      and with no sample or update recorded. */
  method NewCounter(t: CounterType) returns (c: CounterImpl)
    ensures KindOf(t) == NumberKind <==> c.NumberImpl?
    ensures KindOf(t) == RateKind <==> c.RateImpl?
    ensures KindOf(t) == PercentileKind <==> c.PercentileImpl?
    ensures c.NumberImpl? ==> fresh(c.number) && c.number.Valid() && c.number.val == 0
    ensures c.PercentileImpl? ==> fresh(c.percentile) && c.percentile.Valid() && c.percentile.tail == 0
  {
    match KindOf(t)
    case NumberKind =>
      var n := new NumberCounter();
      c := NumberImpl(n);
    case RateKind =>
      c := RateImpl;
    case PercentileKind =>
      var p := new PercentileCounter();
      c := PercentileImpl(p);
  }
}
