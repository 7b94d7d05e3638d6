/** The multi-rank selection worklist of the percentile counter, stated over
    values: a task is a block [left, right] of the scratch array together
    with the contiguous run [qleft, qright] of percentile tags whose ranks
    still have to be found in that block.  This module says what a sound
    task and a sound worklist are and proves that one step of the selection
    keeps the worklist sound and lighter. */
module Selection {
  import opened Common
  import opened Ordering

  /** Number of percentile tags (COUNTER_PERCENTILE_COUNT). */
  const TagCount: int := 5

  /** One entry of the worklist: the four ints of a _calc_queue row. */
  datatype Task = Task(left: int, right: int, qleft: int, qright: int)

  /** A task that still carries tags; the others are skipped by select. */
  predicate Pending(tk: Task) {
    tk.qleft <= tk.qright
  }

  /** The three tasks select pushes after partitioning tk around index,
      with tags [qleft, i) left of the pivot, [i, j) on it and [j, qright]
      right of it. */
  function Children(tk: Task, index: int, i: int, j: int): (c: seq<Task>)
    ensures |c| == 3
  {
    [Task(tk.left, index - 1, tk.qleft, i - 1),
     Task(index, index, i, j - 1),
     Task(index + 1, tk.right, j, tk.qright)]
  }

  /** Termination measure of the worklist loop. */
  function Weight(tk: Task): (w: nat)
    ensures w >= 1
  {
    if !Pending(tk) || tk.right < tk.left then 1 else 3 * (tk.right - tk.left + 1) - 2
  }

  function TotalWeight(q: seq<Task>): nat {
    if q == [] then 0 else Weight(q[0]) + TotalWeight(q[1..])
  }

  lemma {:induction false} TotalWeightAppend(a: seq<Task>, b: seq<Task>)
    ensures TotalWeight(a + b) == TotalWeight(a) + TotalWeight(b)
  {
    if a != [] {
      assert (a + b)[0] == a[0];
      assert (a + b)[1..] == a[1..] + b;
      TotalWeightAppend(a[1..], b);
      assert TotalWeight(a + b) == Weight(a[0]) + TotalWeight(a[1..] + b);
    } else {
      assert a + b == b;
    }
  }

  /** Splitting a block of two or more samples makes the worklist lighter,
      whichever of the three children end up with tags. */
  lemma ChildrenLighter(tk: Task, index: int, i: int, j: int)
    requires Pending(tk) && tk.left < tk.right && tk.left <= index <= tk.right
    ensures TotalWeight(Children(tk, index, i, j)) < Weight(tk)
  {
    var c := Children(tk, index, i, j);
    assert TotalWeight(c[2..]) == Weight(c[2]) by {
      assert c[2..][1..] == [];
    }
    assert TotalWeight(c[1..]) == Weight(c[1]) + TotalWeight(c[2..]) by {
      assert c[1..][1..] == c[2..];
    }
  }

  /** One step of the loop removes the head task and appends its children. */
  lemma StepLighter(q: seq<Task>, l: int, c: seq<Task>)
    requires 0 <= l < |q|
    requires TotalWeight(c) < Weight(q[l])
    ensures TotalWeight((q + c)[l + 1..]) < TotalWeight(q[l..])
  {
    assert q[l..] == [q[l]] + q[l + 1..];
    assert (q + c)[l + 1..] == q[l + 1..] + c;
    TotalWeightAppend(q[l + 1..], c);
  }

  /** A pending task is sound when its block lies inside the snapshot, it
      holds exactly the samples of the same positions of the sorted snapshot
      S, and each of its tags t carries, relative to the block, the global
      rank R[t]. */
  ghost predicate Sound(tk: Task, tmp: seq<u64>, ask: seq<u64>, S: seq<u64>, R: seq<int>) {
    Pending(tk) ==>
      && 0 <= tk.left <= tk.right < |S| <= |tmp|
      && 0 <= tk.qleft && tk.qright < |ask| == |R|
      && multiset(tmp[tk.left..tk.right + 1]) == multiset(S[tk.left..tk.right + 1])
      && forall t :: tk.qleft <= t <= tk.qright ==>
           1 <= ask[t] <= tk.right - tk.left + 1 && tk.left + ask[t] == R[t]
  }

  ghost predicate Disjoint(a: Task, b: Task) {
    a.right < b.left || b.right < a.left
  }

  /** The worklist invariant: q[l..] are the tasks still to run; owner[t]
      is the index of the task holding tag t, or below l once t is answered,
      in which case ans[t] is the sample at rank R[t] of S. */
  ghost predicate Worklist(q: seq<Task>, l: int, owner: seq<int>, tmp: seq<u64>, ask: seq<u64>,
                           ans: seq<u64>, S: seq<u64>, R: seq<int>)
  {
    && 0 <= l <= |q|
    && |owner| == |ask| == |ans| == |R| == TagCount
    && Sorted(S) && |S| <= |tmp|
    && (forall t :: 0 <= t < TagCount ==> 1 <= R[t] <= |S|)
    && (forall k :: l <= k < |q| ==> Sound(q[k], tmp, ask, S, R))
    && (forall k1, k2 :: l <= k1 < k2 < |q| && Pending(q[k1]) && Pending(q[k2]) ==> Disjoint(q[k1], q[k2]))
    && (forall k, t {:trigger q[k], owner[t]} :: l <= k < |q| && 0 <= t < TagCount && q[k].qleft <= t <= q[k].qright ==> owner[t] == k)
    && (forall t :: 0 <= t < TagCount ==>
          && (owner[t] < l ==> ans[t] == S[R[t] - 1])
          && (l <= owner[t] ==> owner[t] < |q| && q[owner[t]].qleft <= t <= q[owner[t]].qright))
  }

  /** tmp1 is tmp0 with the block [lo, hi] permuted so that nothing before
      position index is larger, and nothing after it smaller, than tmp1[index]. */
  ghost predicate PartitionedAt(tmp0: seq<u64>, tmp1: seq<u64>, lo: int, hi: int, index: int) {
    && |tmp1| == |tmp0|
    && 0 <= lo <= index <= hi < |tmp0|
    && (forall k :: 0 <= k < |tmp0| && !(lo <= k <= hi) ==> tmp1[k] == tmp0[k])
    && multiset(tmp1[lo..hi + 1]) == multiset(tmp0[lo..hi + 1])
    && (forall k :: lo <= k < index ==> tmp1[k] <= tmp1[index])
    && (forall k :: index < k <= hi ==> tmp1[index] <= tmp1[k])
  }

  /** ask1 is ask0 with the tags [qleft, qright] split at the pivot's
      relative position now: smaller ranks keep their value, ranks equal to
      now become 1 (the singleton pivot block), larger ones drop by now. */
  ghost predicate RankSplit(ask0: seq<u64>, ask1: seq<u64>, qleft: int, qright: int, i: int, j: int, now: int) {
    && |ask1| == |ask0|
    && 0 <= qleft <= i <= j <= qright + 1 <= |ask0|
    && (forall t :: qleft <= t < i ==> ask1[t] == ask0[t] && ask0[t] < now)
    && (forall t :: i <= t < j ==> ask0[t] == now && ask1[t] == 1)
    && (forall t :: j <= t <= qright ==> ask0[t] > now && ask1[t] == ask0[t] - now)
    && (forall t :: 0 <= t < |ask0| && !(qleft <= t <= qright) ==> ask1[t] == ask0[t])
  }

  /** c are the three tasks select pushes for tk: the block was partitioned
      around c[1].left, and the tags were split at c[1].qleft and c[2].qleft
      by the pivot's relative position. */
  ghost predicate SplitBy(tk: Task, c: seq<Task>, tmp0: seq<u64>, tmp1: seq<u64>, ask0: seq<u64>, ask1: seq<u64>) {
    && |c| == 3
    && c == Children(tk, c[1].left, c[1].qleft, c[2].qleft)
    && PartitionedAt(tmp0, tmp1, tk.left, tk.right, c[1].left)
    && RankSplit(ask0, ask1, tk.qleft, tk.qright, c[1].qleft, c[2].qleft, c[1].left - tk.left + 1)
  }

  /** The owners after splitting q[l] into children appended at position base. */
  ghost function Reassign(owner: seq<int>, tk: Task, base: int, i: int, j: int): (o: seq<int>)
    ensures |o| == |owner|
  {
    seq(|owner|, t requires 0 <= t < |owner| =>
      if tk.qleft <= t < i then base
      else if i <= t < j then base + 1
      else if j <= t <= tk.qright then base + 2
      else owner[t])
  }

  /** The worklist calc starts from is sound: one task with the whole
      snapshot and all tags, each asking for its global rank. */
  lemma InitialWorklist(q: seq<Task>, tmp: seq<u64>, ask: seq<u64>, ans: seq<u64>, snap: seq<u64>,
                        S: seq<u64>, R: seq<int>, owner: seq<int>)
    requires 1 <= |snap| <= |tmp| && tmp[..|snap|] == snap
    requires q == [Task(0, |snap| - 1, 0, TagCount - 1)]
    requires Sorted(S) && multiset(S) == multiset(snap) && |S| == |snap|
    requires |R| == |ask| == |ans| == |owner| == TagCount
    requires forall t :: 0 <= t < TagCount ==> 1 <= R[t] <= |snap| && ask[t] as int == R[t] && owner[t] == 0
    ensures Worklist(q, 0, owner, tmp, ask, ans, S, R)
  {
    var n := |snap|;
    assert Sound(q[0], tmp, ask, S, R) by {
      assert tmp[0..n] == snap;
      assert S[0..n] == S;
    }
  }

  /** A one-sample block of the sorted snapshot holds exactly that sample. */
  lemma Singleton(tmp: seq<u64>, S: seq<u64>, p: int)
    requires 0 <= p < |S| && p < |tmp|
    requires multiset(tmp[p..p + 1]) == multiset(S[p..p + 1])
    ensures tmp[p] == S[p]
  {
    assert tmp[p..p + 1] == [tmp[p]];
    assert S[p..p + 1] == [S[p]];
    assert tmp[p] in multiset(S[p..p + 1]);
  }

  /** Skipping a task without tags keeps the worklist sound. */
  lemma StepSkip(q: seq<Task>, l: int, owner: seq<int>, tmp: seq<u64>, ask: seq<u64>,
                 ans: seq<u64>, S: seq<u64>, R: seq<int>)
    requires Worklist(q, l, owner, tmp, ask, ans, S, R)
    requires l < |q| && !Pending(q[l])
    ensures Worklist(q, l + 1, owner, tmp, ask, ans, S, R)
  {
  }

  /** Answering a one-sample task gives each of its tags the sample at its rank. */
  lemma StepLeaf(q: seq<Task>, l: int, owner: seq<int>, tmp: seq<u64>, ask: seq<u64>,
                 ans0: seq<u64>, ans1: seq<u64>, S: seq<u64>, R: seq<int>)
    requires Worklist(q, l, owner, tmp, ask, ans0, S, R)
    requires l < |q| && Pending(q[l]) && q[l].left == q[l].right
    requires |ans1| == |ans0|
    requires forall t :: 0 <= t < |ans0| ==>
               ans1[t] == if q[l].qleft <= t <= q[l].qright then tmp[q[l].left] else ans0[t]
    ensures Worklist(q, l + 1, owner, tmp, ask, ans1, S, R)
  {
    var tk := q[l];
    assert Sound(tk, tmp, ask, S, R);
    Singleton(tmp, S, tk.left);
    forall t | 0 <= t < TagCount
      ensures owner[t] < l + 1 ==> ans1[t] == S[R[t] - 1]
    {
      if tk.qleft <= t <= tk.qright {
        assert ask[t] == 1;
      } else if owner[t] == l {
        assert false;
      }
    }
  }

  /** The children's blocks hold the samples of the same positions of S. */
  lemma ChildBlocks(tk: Task, tmp0: seq<u64>, tmp1: seq<u64>, ask: seq<u64>, S: seq<u64>, R: seq<int>, index: int)
    requires Pending(tk) && Sound(tk, tmp0, ask, S, R) && Sorted(S)
    requires PartitionedAt(tmp0, tmp1, tk.left, tk.right, index)
    ensures tmp1[index] == S[index]
    ensures multiset(tmp1[tk.left..index]) == multiset(S[tk.left..index])
    ensures multiset(tmp1[index + 1..tk.right + 1]) == multiset(S[index + 1..tk.right + 1])
  {
    var x := tmp1[tk.left..tk.right + 1];
    var y := S[tk.left..tk.right + 1];
    var p := index - tk.left;
    assert Sorted(y);
    forall k | 0 <= k < p ensures x[k] <= x[p] {
      assert x[k] == tmp1[tk.left + k];
    }
    forall k | p < k < |x| ensures x[p] <= x[k] {
      assert x[k] == tmp1[tk.left + k];
    }
    PartitionedBlock(x, y, p);
    assert x[..p] == tmp1[tk.left..index];
    assert y[..p] == S[tk.left..index];
    assert x[p + 1..] == tmp1[index + 1..tk.right + 1];
    assert y[p + 1..] == S[index + 1..tk.right + 1];
  }

  /** The three children of a split are sound. */
  lemma ChildrenSound(tk: Task, tmp0: seq<u64>, tmp1: seq<u64>, ask0: seq<u64>, ask1: seq<u64>,
                      S: seq<u64>, R: seq<int>, index: int, i: int, j: int)
    requires Pending(tk) && Sound(tk, tmp0, ask0, S, R) && Sorted(S)
    requires PartitionedAt(tmp0, tmp1, tk.left, tk.right, index)
    requires RankSplit(ask0, ask1, tk.qleft, tk.qright, i, j, index - tk.left + 1)
    ensures forall c :: c in Children(tk, index, i, j) ==> Sound(c, tmp1, ask1, S, R)
  {
    ChildBlocks(tk, tmp0, tmp1, ask0, S, R, index);
    var c := Children(tk, index, i, j);
    LeftChildSound(tk, tmp0, tmp1, ask0, ask1, S, R, index, i, j);
    PivotChildSound(tk, tmp0, tmp1, ask0, ask1, S, R, index, i, j);
    RightChildSound(tk, tmp0, tmp1, ask0, ask1, S, R, index, i, j);
    assert c == [c[0], c[1], c[2]];
  }

  lemma LeftChildSound(tk: Task, tmp0: seq<u64>, tmp1: seq<u64>, ask0: seq<u64>, ask1: seq<u64>,
                       S: seq<u64>, R: seq<int>, index: int, i: int, j: int)
    requires Pending(tk) && Sound(tk, tmp0, ask0, S, R)
    requires PartitionedAt(tmp0, tmp1, tk.left, tk.right, index)
    requires RankSplit(ask0, ask1, tk.qleft, tk.qright, i, j, index - tk.left + 1)
    requires multiset(tmp1[tk.left..index]) == multiset(S[tk.left..index])
    ensures Sound(Task(tk.left, index - 1, tk.qleft, i - 1), tmp1, ask1, S, R)
  {
    if tk.qleft < i {
      assert 1 <= ask0[tk.qleft] < index - tk.left + 1;
    }
  }

  lemma PivotChildSound(tk: Task, tmp0: seq<u64>, tmp1: seq<u64>, ask0: seq<u64>, ask1: seq<u64>,
                        S: seq<u64>, R: seq<int>, index: int, i: int, j: int)
    requires Pending(tk) && Sound(tk, tmp0, ask0, S, R)
    requires PartitionedAt(tmp0, tmp1, tk.left, tk.right, index)
    requires RankSplit(ask0, ask1, tk.qleft, tk.qright, i, j, index - tk.left + 1)
    requires tmp1[index] == S[index]
    ensures Sound(Task(index, index, i, j - 1), tmp1, ask1, S, R)
  {
    assert tmp1[index..index + 1] == [tmp1[index]];
    assert S[index..index + 1] == [S[index]];
  }

  lemma RightChildSound(tk: Task, tmp0: seq<u64>, tmp1: seq<u64>, ask0: seq<u64>, ask1: seq<u64>,
                        S: seq<u64>, R: seq<int>, index: int, i: int, j: int)
    requires Pending(tk) && Sound(tk, tmp0, ask0, S, R)
    requires PartitionedAt(tmp0, tmp1, tk.left, tk.right, index)
    requires RankSplit(ask0, ask1, tk.qleft, tk.qright, i, j, index - tk.left + 1)
    requires multiset(tmp1[index + 1..tk.right + 1]) == multiset(S[index + 1..tk.right + 1])
    ensures Sound(Task(index + 1, tk.right, j, tk.qright), tmp1, ask1, S, R)
  {
    if j <= tk.qright {
      assert index - tk.left + 1 < ask0[tk.qright] <= tk.right - tk.left + 1;
    }
  }

  /** A sound task whose block and tags are untouched by a split stays sound. */
  lemma OtherSound(tk: Task, other: Task, tmp0: seq<u64>, tmp1: seq<u64>, ask0: seq<u64>, ask1: seq<u64>,
                   S: seq<u64>, R: seq<int>, index: int, i: int, j: int)
    requires Pending(other) && Sound(other, tmp0, ask0, S, R) && Disjoint(tk, other)
    requires PartitionedAt(tmp0, tmp1, tk.left, tk.right, index)
    requires RankSplit(ask0, ask1, tk.qleft, tk.qright, i, j, index - tk.left + 1)
    requires forall t :: other.qleft <= t <= other.qright ==> ask1[t] == ask0[t]
    ensures Sound(other, tmp1, ask1, S, R)
  {
    assert tmp1[other.left..other.right + 1] == tmp0[other.left..other.right + 1];
  }

  /** Every task left after a split, old or new, is sound. */
  lemma SplitSound(q: seq<Task>, l: int, owner: seq<int>, tmp0: seq<u64>, tmp1: seq<u64>,
                   ask0: seq<u64>, ask1: seq<u64>, ans: seq<u64>, S: seq<u64>, R: seq<int>,
                   index: int, i: int, j: int)
    requires Worklist(q, l, owner, tmp0, ask0, ans, S, R)
    requires l < |q| && Pending(q[l]) && q[l].left < q[l].right
    requires PartitionedAt(tmp0, tmp1, q[l].left, q[l].right, index)
    requires RankSplit(ask0, ask1, q[l].qleft, q[l].qright, i, j, index - q[l].left + 1)
    ensures forall k :: l + 1 <= k < |q + Children(q[l], index, i, j)| ==>
              Sound((q + Children(q[l], index, i, j))[k], tmp1, ask1, S, R)
  {
    var tk := q[l];
    var c := Children(tk, index, i, j);
    var q1 := q + c;
    assert Sound(tk, tmp0, ask0, S, R);
    ChildrenSound(tk, tmp0, tmp1, ask0, ask1, S, R, index, i, j);
    forall k | l + 1 <= k < |q1| ensures Sound(q1[k], tmp1, ask1, S, R) {
      if k >= |q| {
        assert q1[k] == c[k - |q|];
        assert q1[k] in c;
      } else if Pending(q[k]) {
        assert q1[k] == q[k];
        assert Disjoint(tk, q[k]);
        forall t | q[k].qleft <= t <= q[k].qright ensures ask1[t] == ask0[t] {
          assert Sound(q[k], tmp0, ask0, S, R);
          var o := owner[t];
          assert o == k;
          assert tk.qleft <= t <= tk.qright ==> o == l;
        }
        OtherSound(tk, q[k], tmp0, tmp1, ask0, ask1, S, R, index, i, j);
      }
    }
  }

  /** After a split, the blocks of pending tasks are still pairwise disjoint. */
  lemma SplitDisjoint(q: seq<Task>, l: int, owner: seq<int>, tmp0: seq<u64>, tmp1: seq<u64>,
                      ask0: seq<u64>, ask1: seq<u64>, ans: seq<u64>, S: seq<u64>, R: seq<int>,
                      index: int, i: int, j: int)
    requires Worklist(q, l, owner, tmp0, ask0, ans, S, R)
    requires l < |q| && Pending(q[l]) && q[l].left < q[l].right
    requires PartitionedAt(tmp0, tmp1, q[l].left, q[l].right, index)
    requires RankSplit(ask0, ask1, q[l].qleft, q[l].qright, i, j, index - q[l].left + 1)
    requires forall k :: l + 1 <= k < |q + Children(q[l], index, i, j)| ==>
               Sound((q + Children(q[l], index, i, j))[k], tmp1, ask1, S, R)
    ensures var q1 := q + Children(q[l], index, i, j);
            forall k1, k2 :: l + 1 <= k1 < k2 < |q1| && Pending(q1[k1]) && Pending(q1[k2]) ==>
              Disjoint(q1[k1], q1[k2])
  {
    var tk := q[l];
    var c := Children(tk, index, i, j);
    var q1 := q + c;
    forall k1, k2 | l + 1 <= k1 < k2 < |q1| && Pending(q1[k1]) && Pending(q1[k2])
      ensures Disjoint(q1[k1], q1[k2])
    {
      if k2 < |q| {
        assert q1[k1] == q[k1] && q1[k2] == q[k2];
      } else if k1 < |q| {
        assert q1[k1] == q[k1];
        assert Disjoint(q[l], q[k1]);
        assert q1[k2] == c[k2 - |q|];
        assert Sound(q1[k2], tmp1, ask1, S, R);
      } else {
        assert q1[k1] == c[k1 - |q|];
        assert q1[k2] == c[k2 - |q|];
      }
    }
  }

  /** After a split, every tag is owned by the task whose tag run holds it,
      and the tags already answered are those owned below the new head. */
  lemma SplitOwners(q: seq<Task>, l: int, owner: seq<int>, tmp0: seq<u64>,
                    ask0: seq<u64>, ask1: seq<u64>, ans: seq<u64>, S: seq<u64>, R: seq<int>,
                    index: int, i: int, j: int)
    requires Worklist(q, l, owner, tmp0, ask0, ans, S, R)
    requires l < |q| && Pending(q[l])
    requires RankSplit(ask0, ask1, q[l].qleft, q[l].qright, i, j, index - q[l].left + 1)
    ensures var q1 := q + Children(q[l], index, i, j);
            var o1 := Reassign(owner, q[l], |q|, i, j);
            && (forall k, t {:trigger q1[k], o1[t]} :: l + 1 <= k < |q1| && 0 <= t < TagCount && q1[k].qleft <= t <= q1[k].qright ==> o1[t] == k)
            && (forall t :: 0 <= t < TagCount ==>
                  && (o1[t] < l + 1 ==> ans[t] == S[R[t] - 1])
                  && (l + 1 <= o1[t] ==> o1[t] < |q1| && q1[o1[t]].qleft <= t <= q1[o1[t]].qright))
  {
    var tk := q[l];
    var c := Children(tk, index, i, j);
    var q1 := q + c;
    var o1 := Reassign(owner, tk, |q|, i, j);
    forall k, t | l + 1 <= k < |q1| && 0 <= t < TagCount && q1[k].qleft <= t <= q1[k].qright
      ensures o1[t] == k
    {
      if k < |q| {
        assert q1[k] == q[k];
        var o := owner[t];
        assert o == k;
        assert tk.qleft <= t <= tk.qright ==> o == l;
      } else {
        assert q1[k] == c[k - |q|];
      }
    }
    forall t | 0 <= t < TagCount
      ensures && (o1[t] < l + 1 ==> ans[t] == S[R[t] - 1])
              && (l + 1 <= o1[t] ==> o1[t] < |q1| && q1[o1[t]].qleft <= t <= q1[o1[t]].qright)
    {
      if tk.qleft <= t <= tk.qright {
        assert q1[|q|] == c[0] && q1[|q| + 1] == c[1] && q1[|q| + 2] == c[2];
      } else {
        assert o1[t] == owner[t];
        if owner[t] == l {
          assert false;
        }
        if l < owner[t] {
          assert q1[owner[t]] == q[owner[t]];
        }
      }
    }
  }

  /** Once the worklist is drained, every tag holds its answer. */
  lemma Drained(q: seq<Task>, owner: seq<int>, tmp: seq<u64>, ask: seq<u64>,
                ans: seq<u64>, S: seq<u64>, R: seq<int>)
    requires Worklist(q, |q|, owner, tmp, ask, ans, S, R)
    ensures forall t :: 0 <= t < TagCount ==> 1 <= R[t] <= |S| && ans[t] == S[R[t] - 1]
  {
    forall t | 0 <= t < TagCount ensures 1 <= R[t] <= |S| && ans[t] == S[R[t] - 1] {
      assert owner[t] < |q|;
    }
  }

  /** Splitting a task of two or more samples keeps the worklist sound. */
  lemma StepSplit(q: seq<Task>, l: int, owner: seq<int>, tmp0: seq<u64>, tmp1: seq<u64>,
                  ask0: seq<u64>, ask1: seq<u64>, ans: seq<u64>, S: seq<u64>, R: seq<int>,
                  index: int, i: int, j: int)
    requires Worklist(q, l, owner, tmp0, ask0, ans, S, R)
    requires l < |q| && Pending(q[l]) && q[l].left < q[l].right
    requires PartitionedAt(tmp0, tmp1, q[l].left, q[l].right, index)
    requires RankSplit(ask0, ask1, q[l].qleft, q[l].qright, i, j, index - q[l].left + 1)
    ensures Worklist(q + Children(q[l], index, i, j), l + 1, Reassign(owner, q[l], |q|, i, j),
                     tmp1, ask1, ans, S, R)
  {
    SplitSound(q, l, owner, tmp0, tmp1, ask0, ask1, ans, S, R, index, i, j);
    SplitDisjoint(q, l, owner, tmp0, tmp1, ask0, ask1, ans, S, R, index, i, j);
    SplitOwners(q, l, owner, tmp0, ask0, ask1, ans, S, R, index, i, j);
    assert |tmp1| == |tmp0|;
  }
}
